/** The reservation stores of host-local: the directory of files
    (backend/disk/backend.go), the in-memory store (backend/testing/fake_store.go)
    and the interface over both (backend/store.go).

    The text forms of addresses (net.IP.String and net.ParseIP) belong to Go's
    library; they enter as a parameter of which only the round trip is known.
    I/O failures enter as parameters too. */
module Stores {
  import opened Common
  import opened Addresses
  import opened Ranges

  const LAST_IP_FILE := "last_reserved_ip"

  datatype Text = Text(show: IP -> string, parse: string -> IP)
  {
    // net.IP.String does not tell the two lengths of an IPv4 address apart.
    function Of(ip: IP): (r: string)
    {
      show(Canon(ip))
    }

    ghost predicate Faithful()
    {
      forall ip: IP {:trigger show(ip)} :: IsAddress(ip) && Canon(ip) == ip ==>
        Canon(parse(show(ip))) == ip && show(ip) != LAST_IP_FILE
    }
  }

  // ---------- the state of a store and its operations ----------

  datatype Store =
    | Memory(ipMap: map<string, string>, last: IP)
    | Disk(files: map<string, string>)
  {
    // The reservations: the text of each reserved address, with its holder.
    function Held(): (r: map<string, string>)
    {
      match this
      case Memory(m, _) => m
      case Disk(files) => files - {LAST_IP_FILE}
    }
  }

  // Where the creation of a reservation can fail, with what is left behind: the
  // partial content if the file could not be removed, whether the complete file
  // could not be removed, and the new content of the cursor file if any.
  datatype Fault =
    | OpenFails
    | WriteFails(partial: Option<string>)
    | CloseFails(left: bool)
    | CursorFails(cursor: Option<string>)

  // The failures met during one operation: an unreadable cursor file, failures
  // by address, and the files that a release cannot read or remove.
  datatype Faults = Faults(cursorUnreadable: bool, reserve: map<string, Fault>, stuck: set<string>)
  {
    function At(name: string): (r: Option<Fault>)
    {
      if name in reserve then Some(reserve[name]) else None
    }
  }

  const NO_FAULTS := Faults(false, map[], {})

  function ReserveFile(text: Text, files: map<string, string>, id: string, ip: IP, fault: Option<Fault>)
    : (r: (map<string, string>, Result<bool, Error>))
  {
    var fname := text.Of(ip);
    if fault == Some(OpenFails) then (files, Err(StoreFailed))
    else if fname in files then (files, Ok(false))
    else
      match fault
      case Some(WriteFails(None)) => (files, Err(StoreFailed))
      case Some(WriteFails(Some(partial))) => (files[fname := partial], Err(StoreFailed))
      case Some(CloseFails(false)) => (files, Err(StoreFailed))
      case Some(CloseFails(true)) => (files[fname := id], Err(StoreFailed))
      case Some(CursorFails(None)) => (files[fname := id], Err(StoreFailed))
      case Some(CursorFails(Some(cursor))) => (files[fname := id][LAST_IP_FILE := cursor], Err(StoreFailed))
      case _ => (files[fname := id][LAST_IP_FILE := text.Of(ip)], Ok(true))
  }

  // What a failed reservation leaves in the file of its address, if it leaves one.
  function LeftBehind(fault: Fault, id: string): (left: Option<string>)
  {
    match fault
    case OpenFails => None
    case WriteFails(partial) => partial
    case CloseFails(left) => if left then Some(id) else None
    case CursorFails(_) => Some(id)
  }

  function Reserve(text: Text, s: Store, id: string, ip: IP, faults: Faults): (r: (Store, Result<bool, Error>))
  {
    var name := text.Of(ip);
    match s
    case Memory(m, last) =>
      if name in m then (s, Ok(false)) else (Memory(m[name := id], Canon(ip)), Ok(true))
    case Disk(files) =>
      var (files', r) := ReserveFile(text, files, id, ip, faults.At(name));
      (Disk(files'), r)
  }

  // The cursor, in the short form of its address.
  function LastReservedIP(text: Text, s: Store, faults: Faults): (r: Result<IP, Error>)
  {
    match s
    case Memory(_, last) => Ok(last)
    case Disk(files) =>
      if faults.cursorUnreadable || LAST_IP_FILE !in files then Err(StoreFailed)
      else Ok(Canon(text.parse(files[LAST_IP_FILE])))
  }

  predicate SameAddress(raw: Result<IP, Error>, canonical: Result<IP, Error>)
  {
    if raw.Ok? then canonical == Ok(Canon(raw.value)) else canonical == raw
  }

  function Without(m: map<string, string>, id: string, stuck: set<string>): (r: map<string, string>)
  {
    map n | n in m && (m[n] != id || n in stuck) :: m[n]
  }

  function ReleaseByID(s: Store, id: string, faults: Faults): (r: Store)
  {
    match s
    case Memory(m, last) => Memory(Without(m, id, {}), last)
    case Disk(files) => Disk(Without(files, id, faults.stuck))
  }

  // ---------- what the operations promise ----------

  // Distinct addresses have distinct names, none of them the cursor file's.
  lemma NamesAreDistinct(text: Text, a: IP, b: IP)
    requires text.Faithful() && IsAddress(a) && IsAddress(b)
    ensures text.Of(a) == text.Of(b) <==> Canon(a) == Canon(b)
    ensures text.Of(a) != LAST_IP_FILE
  {
    CanonIsCanonical(a);
    CanonIsCanonical(b);
  }

  // Reserve succeeds exactly on a free address that meets no failure; then the
  // one new reservation is the address, for id. An attempt on a reserved address
  // changes nothing; after an error a free address stays free, or reserved with
  // what the failure left in its file. No other reservation ever changes.
  lemma ReserveOutcome(text: Text, s: Store, id: string, ip: IP, faults: Faults)
    requires text.Faithful() && IsAddress(ip)
    ensures var (s', r) := Reserve(text, s, id, ip, faults);
            var name, fault := text.Of(ip), faults.At(text.Of(ip));
            && (r == Ok(true) <==> name !in s.Held() && (s.Memory? || fault == None))
            && (r == Ok(true) ==> s'.Held() == s.Held()[name := id])
            && (name in s.Held() ==> s' == s && r != Ok(true))
            && (r.Err? ==> s.Disk? && fault.Some? && r.error == StoreFailed)
            && (r.Err? && name !in s.Held() ==>
                  s'.Held() == match LeftBehind(fault.value, id)
                               case None => s.Held()
                               case Some(content) => s.Held()[name := content])
  {
    NamesAreDistinct(text, ip, ip);
  }

  // The cursor file after Reserve: rewritten with the address on success, left with
  // what a failed write of it made, and otherwise as it was.
  lemma CursorFileOutcome(text: Text, files: map<string, string>, id: string, ip: IP, fault: Option<Fault>)
    requires text.Faithful() && IsAddress(ip)
    ensures var (files', r) := ReserveFile(text, files, id, ip, fault);
            var cursor := if LAST_IP_FILE in files then Some(files[LAST_IP_FILE]) else None;
            (if LAST_IP_FILE in files' then Some(files'[LAST_IP_FILE]) else None)
            == if r == Ok(true) then Some(text.Of(ip))
               else if text.Of(ip) !in files && fault.Some? && fault.value.CursorFails? && fault.value.cursor.Some?
               then fault.value.cursor
               else cursor
  {
    NamesAreDistinct(text, ip, ip);
  }

  // A release by id removes exactly what the id holds and can be removed, on disk
  // the cursor file too if the id is its text; the in-memory cursor stays.
  lemma ReleaseUnderFaults(s: Store, id: string, faults: Faults)
    ensures var s' := ReleaseByID(s, id, faults);
            && (forall n :: n in s'.Held() <==>
                  n in s.Held() && (s.Held()[n] != id || (s.Disk? && n in faults.stuck)))
            && (forall n :: n in s'.Held() ==> s'.Held()[n] == s.Held()[n])
            && (s.Memory? ==> s'.Memory? && s'.last == s.last)
            && (s.Disk? ==>
                  && s'.Disk?
                  && (LAST_IP_FILE in s'.files <==>
                        LAST_IP_FILE in s.files && (s.files[LAST_IP_FILE] != id || LAST_IP_FILE in faults.stuck))
                  && (LAST_IP_FILE in s'.files ==> s'.files[LAST_IP_FILE] == s.files[LAST_IP_FILE]))
  {
  }

  // ---------- fake_store.go ----------

  class FakeStore {
    const text: Text
    var ipMap: map<string, string>
    var lastReservedIP: IP

    constructor (text: Text, ipMap: map<string, string>, lastIP: IP)
      ensures this.text == text && State() == Memory(ipMap, Canon(lastIP))
    {
      this.text := text;
      this.ipMap, this.lastReservedIP := ipMap, lastIP;
    }

    ghost function State(): (r: Store)
      reads this
    {
      Memory(ipMap, Canon(lastReservedIP))
    }

    method ReserveIP(id: string, ip: IP) returns (reserved: bool)
      modifies this
      ensures forall faults :: (State(), Ok(reserved)) == Reserve(text, old(State()), id, ip, faults)
    {
      var key := text.Of(ip);
      if key !in ipMap {
        ipMap := ipMap[key := id];
        lastReservedIP := ip;
        return true;
      }
      return false;
    }

    method Release(ip: IP)
      modifies this
      ensures State() == Memory(old(ipMap) - {text.Of(ip)}, Canon(old(lastReservedIP)))
    {
      ipMap := ipMap - {text.Of(ip)};
    }

    // First collect the names held by id, then delete them.
    method ReleaseAll(id: string)
      modifies this
      ensures forall faults :: State() == ReleaseByID(old(State()), id, faults)
    {
      var toDelete: seq<string> := [];
      var keys := ipMap.Keys;
      while keys != {}
        invariant keys <= ipMap.Keys && ipMap == old(ipMap) && lastReservedIP == old(lastReservedIP)
        invariant forall n :: n in toDelete <==> n in ipMap.Keys - keys && ipMap[n] == id
        decreases keys
      {
        var k :| k in keys;
        if ipMap[k] == id {
          toDelete := toDelete + [k];
        }
        keys := keys - {k};
      }
      for i := 0 to |toDelete|
        invariant lastReservedIP == old(lastReservedIP)
        invariant ipMap == old(ipMap) - (set j | 0 <= j < i :: toDelete[j])
      {
        ipMap := ipMap - {toDelete[i]};
      }
      assert ipMap == Without(old(ipMap), id, {});
    }
  }

  // ---------- disk/backend.go ----------

  class DiskStore {
    const text: Text
    var files: map<string, string>

    constructor (text: Text, files: map<string, string>)
      ensures this.text == text && State() == Disk(files)
    {
      this.text, this.files := text, files;
    }

    ghost function State(): (r: Store)
      reads this
    {
      Disk(files)
    }

    // The exclusive creation, the write and the close of the reservation file,
    // then the rewrite of the cursor file; each step may be the one that fails.
    method ReserveIP(id: string, ip: IP, fault: Option<Fault>) returns (r: Result<bool, Error>)
      modifies this
      ensures (files, r) == ReserveFile(text, old(files), id, ip, fault)
    {
      var fname := text.Of(ip);
      if fault == Some(OpenFails) {
        return Err(StoreFailed);
      }
      if fname in files {
        return Ok(false);
      }
      files := files[fname := ""];
      if fault.Some? && fault.value.WriteFails? {
        if fault.value.partial.Some? {
          files := files[fname := fault.value.partial.value];
          assert files == old(files)[fname := fault.value.partial.value];
        } else {
          files := files - {fname};
          assert files == old(files);
        }
        return Err(StoreFailed);
      }
      files := files[fname := id];
      assert files == old(files)[fname := id];
      if fault.Some? && fault.value.CloseFails? {
        if !fault.value.left {
          files := files - {fname};
          assert files == old(files);
        }

        return Err(StoreFailed);
      }
      if fault.Some? && fault.value.CursorFails? {
        if fault.value.cursor.Some? {
          files := files[LAST_IP_FILE := fault.value.cursor.value];
        }
        return Err(StoreFailed);
      }
      files := files[LAST_IP_FILE := text.Of(ip)];
      return Ok(true);
    }

    method LastReserved(unreadable: bool) returns (r: Result<IP, Error>)
      ensures forall faults: Faults :: faults.cursorUnreadable == unreadable ==>
                SameAddress(r, LastReservedIP(text, State(), faults))
    {
      if unreadable || LAST_IP_FILE !in files {
        return Err(StoreFailed);
      }
      return Ok(text.parse(files[LAST_IP_FILE]));
    }

    method Release(ip: IP) returns (removed: bool)
      modifies this
      ensures removed == (text.Of(ip) in old(files)) && files == old(files) - {text.Of(ip)}
    {
      var name := text.Of(ip);
      removed := name in files;
      files := files - {name};
    }

    // The walk over the directory: every file that can be read and holds id is
    // removed if it can be; whatever fails is skipped.
    method ReleaseAll(id: string, stuck: set<string>)
      modifies this
      ensures files == Without(old(files), id, stuck)
    {
      var todo := files.Keys;
      while todo != {}
        invariant todo <= files.Keys
        invariant forall n :: n in files ==> n in old(files) && files[n] == old(files)[n]
        invariant forall n :: n in old(files) && n !in files ==> old(files)[n] == id && n !in stuck
        invariant forall n :: n in files && n !in todo ==> files[n] != id || n in stuck
        decreases todo
      {
        var n :| n in todo;
        if n !in stuck && files[n] == id {
          files := files - {n};
        }
        todo := todo - {n};
      }
    }
  }

  // ---------- store.go ----------

  // The Store interface, closed over its two implementations.
  datatype Backend = OnDisk(disk: DiskStore) | InMemory(fake: FakeStore)
  {
    ghost function Repr(): (r: set<object>)
    {
      match this
      case OnDisk(d) => {d}
      case InMemory(f) => {f}
    }

    function Codec(): (r: Text)
    {
      match this
      case OnDisk(d) => d.text
      case InMemory(f) => f.text
    }

    ghost function State(): (r: Store)
      reads Repr()
    {
      match this
      case OnDisk(d) => d.State()
      case InMemory(f) => f.State()
    }

    method ReserveIP(id: string, ip: IP, faults: Faults) returns (r: Result<bool, Error>)
      modifies Repr()
      ensures (State(), r) == Reserve(Codec(), old(State()), id, ip, faults)
    {
      match this
      case OnDisk(d) => r := d.ReserveIP(id, ip, faults.At(d.text.Of(ip)));
      case InMemory(f) =>
        var reserved := f.ReserveIP(id, ip);
        r := Ok(reserved);
    }

    method LastReserved(faults: Faults) returns (r: Result<IP, Error>)
      ensures SameAddress(r, LastReservedIP(Codec(), State(), faults))
    {
      match this
      case OnDisk(d) => r := d.LastReserved(faults.cursorUnreadable);
      case InMemory(f) => r := Ok(f.lastReservedIP);
    }

    method ReleaseAll(id: string, faults: Faults)
      modifies Repr()
      ensures State() == ReleaseByID(old(State()), id, faults)
    {
      match this
      case OnDisk(d) => d.ReleaseAll(id, faults.stuck);
      case InMemory(f) => f.ReleaseAll(id);
    }
  }
}
