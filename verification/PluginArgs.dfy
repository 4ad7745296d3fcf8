/** CNI_ARGS: the printer (pkg/invoke/args.go, stringify) and the parser
    (pkg/types/args.go, LoadArgs) that have to agree. */
module PluginArgs {
  import opened Common
  import opened Addresses

  // ---------- strings.Split and strings.Join with a one-character separator ----------

  function Split(s: string, c: char): (pieces: seq<string>)
    ensures |pieces| >= 1
  {
    if s == "" then [""]
    else
      var rest := Split(s[1..], c);
      if s[0] == c then [""] + rest else [[s[0]] + rest[0]] + rest[1..]
  }

  function Join(pieces: seq<string>, c: char): (r: string)
  {
    if pieces == [] then ""
    else if |pieces| == 1 then pieces[0]
    else pieces[0] + [c] + Join(pieces[1..], c)
  }

  lemma {:induction false} SplitPlain(s: string, c: char)
    requires c !in s
    ensures Split(s, c) == [s]
  {
    if s != "" {
      SplitPlain(s[1..], c);
      assert [s[0]] + s[1..] == s;
    }
  }

  lemma {:induction false} SplitAtFirst(s: string, c: char, t: string)
    requires c !in s
    ensures Split(s + [c] + t, c) == [s] + Split(t, c)
  {
    var u := s + [c] + t;
    if s == "" {
      assert u[1..] == t;
    } else {
      assert u[1..] == s[1..] + [c] + t;
      SplitAtFirst(s[1..], c, t);
      assert [s[0]] + s[1..] == s;
    }
  }

  lemma {:induction false} SplitJoined(pieces: seq<string>, c: char)
    requires pieces != [] && forall i :: 0 <= i < |pieces| ==> c !in pieces[i]
    ensures Split(Join(pieces, c), c) == pieces
  {
    if |pieces| == 1 {
      SplitPlain(pieces[0], c);
    } else {
      SplitJoined(pieces[1..], c);
      SplitAtFirst(pieces[0], c, Join(pieces[1..], c));
    }
  }

  // No piece contains the separator, or any character that was not there.
  lemma {:induction false} PieceIsPart(s: string, c: char, i: nat)
    requires i < |Split(s, c)|
    ensures forall x :: x in Split(s, c)[i] ==> x != c && x in s
    decreases |s|
  {
    if s != "" {
      var rest := Split(s[1..], c);
      if s[0] == c {
        if i > 0 {
          PieceIsPart(s[1..], c, i - 1);
        }
      } else {
        PieceIsPart(s[1..], c, i);
      }
    }
  }

  lemma PiecesAreParts(s: string, c: char)
    ensures forall i :: 0 <= i < |Split(s, c)| ==> c !in Split(s, c)[i]
    ensures forall d: char :: d !in s ==> forall i :: 0 <= i < |Split(s, c)| ==> d !in Split(s, c)[i]
  {
    forall i | 0 <= i < |Split(s, c)|
      ensures forall x :: x in Split(s, c)[i] ==> x != c && x in s
    {
      PieceIsPart(s, c, i);
    }
  }

  // Splitting takes nothing away but the separators.
  lemma {:induction false} JoinSplit(s: string, c: char)
    ensures Join(Split(s, c), c) == s
  {
    if s != "" {
      JoinSplit(s[1..], c);
      var rest := Split(s[1..], c);
      if s[0] == c {
        assert ([""] + rest)[1..] == rest;
      } else if |rest| > 1 {
        assert ([[s[0]] + rest[0]] + rest[1..])[1..] == rest[1..];
      }
    }
  }

  // ---------- the printer ----------

  type Pair = (string, string)

  function Entry(kv: Pair): (r: string)
  {
    Join([kv.0, kv.1], '=')
  }

  function Entries(pairs: seq<Pair>): (es: seq<string>)
    ensures |es| == |pairs| && forall i :: 0 <= i < |pairs| ==> es[i] == Entry(pairs[i])
  {
    if pairs == [] then [] else [Entry(pairs[0])] + Entries(pairs[1..])
  }

  function Printed(pairs: seq<Pair>): (r: string)
  {
    Join(Entries(pairs), ';')
  }

  method Stringify(pairs: seq<Pair>) returns (s: string)
    ensures s == Printed(pairs)
  {
    var entries := new string[|pairs|](_ => "");
    for i := 0 to |pairs|
      invariant forall k :: 0 <= k < i ==> entries[k] == Entry(pairs[k])
    {
      entries[i] := Join([pairs[i].0, pairs[i].1], '=');
    }
    assert entries[..] == Entries(pairs);
    s := Join(entries[..], ';');
  }

  // ---------- the pairs of a string ----------

  function PairOf(piece: string): (r: Option<Pair>)
  {
    var kv := Split(piece, '=');
    if |kv| != 2 then None else Some((kv[0], kv[1]))
  }

  // A piece is a pair exactly with one equals sign: what stands before it and after.
  lemma PairOfExactly(piece: string, k: string, v: string)
    ensures PairOf(piece) == Some((k, v)) <==> piece == k + "=" + v && '=' !in k && '=' !in v
  {
    hide Split;
    if PairOf(piece) == Some((k, v)) {
      JoinSplit(piece, '=');
      PiecesAreParts(piece, '=');
      assert Split(piece, '=') == [k, v] && [k, v][1..] == [v];
    }
    if piece == k + "=" + v && '=' !in k && '=' !in v {
      assert [k, v][1..] == [v] && Join([v], '=') == v;
      assert Join([k, v], '=') == k + ['='] + v == piece;
      SplitJoined([k, v], '=');
    }
  }

  // The pairs as LoadArgs sees them, provided every piece is one.
  function PairsOf(pieces: seq<string>): (r: Option<seq<Pair>>)
  {
    if pieces == [] then Some([])
    else
      match (PairOf(pieces[0]), PairsOf(pieces[1..]))
      case (Some(kv), Some(rest)) => Some([kv] + rest)
      case _ => None
  }

  predicate Plain(s: string)
  {
    ';' !in s && '=' !in s
  }

  lemma EntryIsPair(kv: Pair)
    ensures Plain(kv.0) && Plain(kv.1) ==> PairOf(Entry(kv)) == Some(kv) && ';' !in Entry(kv)
  {
    if Plain(kv.0) && Plain(kv.1) {
      SplitJoined([kv.0, kv.1], '=');
      assert [kv.0, kv.1][1..] == [kv.1] && Join([kv.1], '=') == kv.1;
      assert Entry(kv) == kv.0 + ['='] + kv.1;
    }
  }

  lemma {:induction false} EntriesArePairs(pairs: seq<Pair>)
    requires forall i :: 0 <= i < |pairs| ==> Plain(pairs[i].0) && Plain(pairs[i].1)
    ensures PairsOf(Entries(pairs)) == Some(pairs)
    ensures forall i :: 0 <= i < |pairs| ==> ';' !in Entries(pairs)[i]
  {
    hide Split, Join;
    if pairs != [] {
      EntryIsPair(pairs[0]);
      EntriesArePairs(pairs[1..]);
      assert pairs == [pairs[0]] + pairs[1..];
    }
  }

  lemma {:induction false} PairsAreParts(pieces: seq<string>)
    requires PairsOf(pieces).Some? && forall i :: 0 <= i < |pieces| ==> ';' !in pieces[i]
    ensures var pairs := PairsOf(pieces).value;
            forall i :: 0 <= i < |pairs| ==> Plain(pairs[i].0) && Plain(pairs[i].1)
  {
    hide Split;
    if pieces != [] {
      PiecesAreParts(pieces[0], '=');
      PairsAreParts(pieces[1..]);
      var pairs, rest := PairsOf(pieces).value, PairsOf(pieces[1..]).value;
      assert pairs == [(Split(pieces[0], '=')[0], Split(pieces[0], '=')[1])] + rest;
      assert ';' !in pieces[0];
    }
  }

  // Reading back what was printed gives the same pairs exactly when no key and no
  // value contains a separator.
  lemma PrintedReadsBackExactly(pairs: seq<Pair>)
    requires pairs != []
    ensures PairsOf(Split(Printed(pairs), ';')) == Some(pairs)
            <==> forall i :: 0 <= i < |pairs| ==> Plain(pairs[i].0) && Plain(pairs[i].1)
    ensures Printed(pairs) == "" ==> exists i :: 0 <= i < |pairs| && !(Plain(pairs[i].0) && Plain(pairs[i].1))
  {
    hide Split, PairsOf;
    var pieces := Split(Printed(pairs), ';');
    if forall i :: 0 <= i < |pairs| ==> Plain(pairs[i].0) && Plain(pairs[i].1) {
      EntriesArePairs(pairs);
      SplitJoined(Entries(pairs), ';');
      PrintedIsNotEmpty(pairs);
    }
    if PairsOf(pieces) == Some(pairs) {
      PiecesAreParts(Printed(pairs), ';');
      PairsAreParts(pieces);
    }
  }

  lemma PrintedIsNotEmpty(pairs: seq<Pair>)
    requires pairs != []
    ensures Printed(pairs) != ""
  {
    var (k, v) := pairs[0];
    assert [k, v][1..] == [v] && Join([v], '=') == v;
    assert Entry(pairs[0]) == k + ['='] + v;
    assert '=' in Entry(pairs[0]);
    assert Entries(pairs)[0] == Entry(pairs[0]);
  }

  // ---------- the fields of an argument container ----------

  // The kinds of fields: UnmarshallableBool, UnmarshallableString, net.IP, and
  // fields without UnmarshalText, such as the embedded CommonArgs itself.
  datatype Field = BoolField(b: bool) | TextField(s: string) | AddressField(ip: IP) | Opaque

  type Fields = map<string, Field>

  // net.ParseIP, which belongs to Go's library.
  type AddressParser = string -> Option<IP>

  function ToLower(s: string): (r: string)
  {
    if s == "" then ""
    else [Lower(s[0])] + ToLower(s[1..])
  }

  // UnmarshallableBool.UnmarshalText
  function ParseBool(text: string): (r: Option<bool>)
  {
    var s := ToLower(text);
    if s == "1" || s == "true" then Some(true)
    else if s == "0" || s == "false" then Some(false)
    else None
  }

  // The texts taken for a boolean: 1 and 0, and the two words in any mix of cases.
  lemma ParseBoolExact(text: string)
    ensures ParseBool(text) == Some(true) <==>
              text == "1" || (|text| == 4 && text[0] in "tT" && text[1] in "rR" && text[2] in "uU" && text[3] in "eE")
    ensures ParseBool(text) == Some(false) <==>
              text == "0" || (|text| == 5 && text[0] in "fF" && text[1] in "aA" && text[2] in "lL"
                              && text[3] in "sS" && text[4] in "eE")
  {
    var s := ToLower(text);
    LowerByCharacter(text);
    assert s == "true" <==> |s| == 4 && s[0] == 't' && s[1] == 'r' && s[2] == 'u' && s[3] == 'e';
    assert s == "false" <==> |s| == 5 && s[0] == 'f' && s[1] == 'a' && s[2] == 'l' && s[3] == 's' && s[4] == 'e';
    assert s == "1" <==> |s| == 1 && s[0] == '1';
    assert s == "0" <==> |s| == 1 && s[0] == '0';
    assert text == "1" <==> |text| == 1 && text[0] == '1';
    assert text == "0" <==> |text| == 1 && text[0] == '0';
  }

  function Lower(c: char): (r: char)
  {
    if 'A' <= c <= 'Z' then (c as int + 32) as char else c
  }

  lemma {:induction false} LowerByCharacter(text: string)
    ensures |ToLower(text)| == |text|
    ensures forall i :: 0 <= i < |text| ==> ToLower(text)[i] == Lower(text[i])
  {
    if text != "" {
      LowerByCharacter(text[1..]);
    }
  }

  // The field after UnmarshalText, which depends on the kind of the field only.
  function Unmarshal(addr: AddressParser, f: Field, text: string): (r: Option<Field>)
  {
    match f
    case BoolField(_) => (match ParseBool(text) case Some(b) => Some(BoolField(b)) case None => None)
    case TextField(_) => Some(TextField(text))
    case AddressField(_) =>
      if text == "" then Some(AddressField(NIL))
      else (match addr(text) case Some(ip) => Some(AddressField(ip)) case None => None)
    case Opaque => None
  }

  // Panic stands for Go's panic, on a field without UnmarshalText or a container
  // without IgnoreUnknown.
  datatype ArgsError = InvalidPair | BadValue | UnknownArgs | Panic

  const IGNORE_UNKNOWN := "IgnoreUnknown"

  // ---------- the parser ----------

  datatype Loading = Loading(fields: Fields, unknown: nat, error: Option<ArgsError>)

  // One turn of the loop over the pairs.
  function LoadPiece(addr: AddressParser, l: Loading, piece: string): (r: Loading)
  {
    match PairOf(piece)
    case None => l.(error := Some(InvalidPair))
    case Some((k, v)) =>
      if k !in l.fields then l.(unknown := l.unknown + 1)
      else
        match Unmarshal(addr, l.fields[k], v)
        case Some(f) => l.(fields := l.fields[k := f])
        case None => l.(error := Some(if l.fields[k].Opaque? then Panic else BadValue))
  }

  function LoadPieces(addr: AddressParser, fields: Fields, pieces: seq<string>): (r: Loading)
  {
    if pieces == [] then Loading(fields, 0, None)
    else
      var l := LoadPieces(addr, fields, pieces[..|pieces| - 1]);
      if l.error.Some? then l else LoadPiece(addr, l, pieces[|pieces| - 1])
  }

  function CheckUnknown(l: Loading): (r: Option<ArgsError>)
  {
    if l.error.Some? then l.error
    else if IGNORE_UNKNOWN !in l.fields || !l.fields[IGNORE_UNKNOWN].BoolField? then Some(Panic)
    else if l.unknown > 0 && !l.fields[IGNORE_UNKNOWN].b then Some(UnknownArgs)
    else None
  }

  function Load(addr: AddressParser, fields: Fields, args: string): (r: (Fields, Option<ArgsError>))
  {
    if args == "" then (fields, None)
    else
      var l := LoadPieces(addr, fields, Split(args, ';'));
      (l.fields, CheckUnknown(l))
  }

  class Container {
    const addr: AddressParser
    var fields: Fields

    constructor (addr: AddressParser, fields: Fields)
      ensures this.addr == addr && this.fields == fields
    {
      this.addr, this.fields := addr, fields;
    }

    method LoadArgs(args: string) returns (err: Option<ArgsError>)
      modifies this
      ensures (fields, err) == Load(addr, old(fields), args)
    {
      if args == "" {
        return None;
      }
      var pairs := Split(args, ';');
      var unknownArgs: seq<string> := [];
      for i := 0 to |pairs|
        invariant LoadPieces(addr, old(fields), pairs[..i]) == Loading(fields, |unknownArgs|, None)
      {
        assert pairs[..i + 1][..i] == pairs[..i];
        ErrorStays(addr, old(fields), pairs, i + 1);
        var kv := Split(pairs[i], '=');
        if |kv| != 2 {
          return Some(InvalidPair);
        }
        if kv[0] !in fields {
          unknownArgs := unknownArgs + [pairs[i]];
        } else {
          var f := Unmarshal(addr, fields[kv[0]], kv[1]);
          if f == None {
            return Some(if fields[kv[0]].Opaque? then Panic else BadValue);
          }
          fields := fields[kv[0] := f.value];
        }
      }
      assert pairs[..|pairs|] == pairs;
      if IGNORE_UNKNOWN !in fields || !fields[IGNORE_UNKNOWN].BoolField? {
        return Some(Panic);
      }
      if |unknownArgs| > 0 && !fields[IGNORE_UNKNOWN].b {
        return Some(UnknownArgs);
      }
      return None;
    }
  }

  lemma {:induction false} ErrorStays(addr: AddressParser, fields: Fields, pieces: seq<string>, n: nat)
    requires n <= |pieces|
    ensures LoadPieces(addr, fields, pieces[..n]).error.Some? ==>
              LoadPieces(addr, fields, pieces) == LoadPieces(addr, fields, pieces[..n])
    decreases |pieces|
  {
    if n == |pieces| {
      assert pieces[..n] == pieces;
    } else {
      assert pieces[..|pieces| - 1][..n] == pieces[..n];
      ErrorStays(addr, fields, pieces[..|pieces| - 1], n);
    }
  }

  // ---------- what loading means ----------

  // Every value of a known key parses, for the kind of its field.
  ghost predicate AllParse(addr: AddressParser, fields: Fields, pairs: seq<Pair>)
  {
    forall i :: 0 <= i < |pairs| && pairs[i].0 in fields ==>
      Unmarshal(addr, fields[pairs[i].0], pairs[i].1).Some?
  }

  // Each field has its last value among the pairs, or the one it had.
  ghost predicate LastValues(addr: AddressParser, fields: Fields, pairs: seq<Pair>, fields': Fields)
  {
    && fields'.Keys == fields.Keys
    && forall k :: k in fields ==>
         && ((forall i :: 0 <= i < |pairs| ==> pairs[i].0 != k) ==> fields'[k] == fields[k])
         && (forall i :: 0 <= i < |pairs| && pairs[i].0 == k
                         && (forall j :: i < j < |pairs| ==> pairs[j].0 != k) ==>
               Some(fields'[k]) == Unmarshal(addr, fields[k], pairs[i].1))
  }

  ghost predicate SameKinds(fields: Fields, fields': Fields)
  {
    && fields'.Keys == fields.Keys
    && forall k :: k in fields ==>
         && (fields[k].BoolField? <==> fields'[k].BoolField?) && (fields[k].TextField? <==> fields'[k].TextField?)
         && (fields[k].AddressField? <==> fields'[k].AddressField?)
  }

  ghost predicate AllKnown(fields: Fields, pairs: seq<Pair>)
  {
    forall i :: 0 <= i < |pairs| ==> pairs[i].0 in fields
  }

  // The first n pairs, all of them well-formed: loading meets no error exactly if
  // all values parse, and then leaves the last values; unknown keys are counted.
  lemma {:induction false} LoadedPieces(addr: AddressParser, fields: Fields, pieces: seq<string>, pairs: seq<Pair>)
    requires |pieces| == |pairs| && forall i :: 0 <= i < |pieces| ==> PairOf(pieces[i]) == Some(pairs[i])
    ensures var l := LoadPieces(addr, fields, pieces);
            && SameKinds(fields, l.fields)
            && (l.error.None? <==> AllParse(addr, fields, pairs))
            && (l.error.None? ==> LastValues(addr, fields, pairs, l.fields)
                                  && (l.unknown == 0 <==> AllKnown(fields, pairs)))
    decreases |pieces|
  {
    hide PairOf;
    if pieces != [] {
      var n := |pieces| - 1;
      var before, last := pairs[..n], pairs[n];
      assert pairs == before + [last];
      LoadedPieces(addr, fields, pieces[..n], before);
      LoadedOne(addr, fields, before, last, LoadPieces(addr, fields, pieces[..n]), pieces[n]);
    }
  }

  lemma LoadedOne(addr: AddressParser, fields: Fields, before: seq<Pair>, last: Pair, l: Loading, piece: string)
    requires PairOf(piece) == Some(last) && SameKinds(fields, l.fields)
    requires l.error.None? <==> AllParse(addr, fields, before)
    requires l.error.None? ==> LastValues(addr, fields, before, l.fields)
                               && (l.unknown == 0 <==> AllKnown(fields, before))
    ensures var m, pairs := if l.error.Some? then l else LoadPiece(addr, l, piece), before + [last];
            && SameKinds(fields, m.fields)
            && (m.error.None? <==> AllParse(addr, fields, pairs))
            && (m.error.None? ==> LastValues(addr, fields, pairs, m.fields)
                                  && (m.unknown == 0 <==> AllKnown(fields, pairs)))
  {
    hide PairOf, AllParse, LastValues, AllKnown, SameKinds, Unmarshal;
    ParseOneMore(addr, fields, before, last);
    if l.error.None? {
      KnownOneMore(fields, before, last);
      LoadOneMore(addr, fields, before, last, l, LoadPiece(addr, l, piece), piece);
    }
  }

  lemma ParseOneMore(addr: AddressParser, fields: Fields, before: seq<Pair>, last: Pair)
    ensures AllParse(addr, fields, before + [last])
            <==> AllParse(addr, fields, before)
                 && (last.0 in fields ==> Unmarshal(addr, fields[last.0], last.1).Some?)
  {
    hide Unmarshal;
    var pairs := before + [last];
    assert pairs[|before|] == last && forall i :: 0 <= i < |before| ==> pairs[i] == before[i];
  }

  lemma KnownOneMore(fields: Fields, before: seq<Pair>, last: Pair)
    ensures AllKnown(fields, before + [last]) <==> AllKnown(fields, before) && last.0 in fields
  {
    var pairs := before + [last];
    assert pairs[|before|] == last && forall i :: 0 <= i < |before| ==> pairs[i] == before[i];
  }

  lemma LoadOneMore(addr: AddressParser, fields: Fields, before: seq<Pair>, last: Pair,
                    l: Loading, m: Loading, piece: string)
    requires PairOf(piece) == Some(last) && m == LoadPiece(addr, l, piece) && l.error.None?
    requires SameKinds(fields, l.fields) && LastValues(addr, fields, before, l.fields)
    ensures SameKinds(fields, m.fields)
    ensures m.error.None? <==> (last.0 in fields ==> Unmarshal(addr, fields[last.0], last.1).Some?)
    ensures m.error.None? ==> LastValues(addr, fields, before + [last], m.fields)
    ensures m.error.None? ==> m.unknown == l.unknown + (if last.0 in fields then 0 else 1)
  {
    hide PairOf, Unmarshal, LastValues;
    if last.0 in fields {
      KindDecides(addr, fields[last.0], l.fields[last.0], last.1);
      KindStays(addr, l.fields[last.0], last.1);
    }
    if m.error.None? {
      LastOneMore(addr, fields, before, last, l.fields, m.fields);
    }
  }

  lemma KindStays(addr: AddressParser, f: Field, text: string)
    ensures var g := Unmarshal(addr, f, text);
            g.Some? ==> && (f.BoolField? <==> g.value.BoolField?) && (f.TextField? <==> g.value.TextField?)
                        && (f.AddressField? <==> g.value.AddressField?)
  {
  }

  lemma LastOneMore(addr: AddressParser, fields: Fields, before: seq<Pair>, last: Pair, f: Fields, g: Fields)
    requires LastValues(addr, fields, before, f)
    requires if last.0 in fields
             then Unmarshal(addr, fields[last.0], last.1).Some?
                  && g == f[last.0 := Unmarshal(addr, fields[last.0], last.1).value]
             else g == f
    ensures LastValues(addr, fields, before + [last], g)
  {
    hide Unmarshal;
    var pairs := before + [last];
    assert pairs[|before|] == last;
    forall k | k in fields
      ensures (forall i :: 0 <= i < |pairs| ==> pairs[i].0 != k) ==> g[k] == fields[k]
      ensures forall i :: 0 <= i < |pairs| && pairs[i].0 == k
                          && (forall j :: i < j < |pairs| ==> pairs[j].0 != k) ==>
                            Some(g[k]) == Unmarshal(addr, fields[k], pairs[i].1)
    {
      assert forall i :: 0 <= i < |before| ==> before[i] == pairs[i];
      if k != last.0 {
        forall i | 0 <= i < |pairs| && pairs[i].0 == k && (forall j :: i < j < |pairs| ==> pairs[j].0 != k)
          ensures Some(g[k]) == Unmarshal(addr, fields[k], pairs[i].1)
        {
          assert forall j :: i < j < |before| ==> before[j].0 == pairs[j].0;
        }
      }
    }
  }

  lemma KindDecides(addr: AddressParser, f: Field, g: Field, text: string)
    requires (f.BoolField? <==> g.BoolField?) && (f.TextField? <==> g.TextField?)
    requires f.AddressField? <==> g.AddressField?
    ensures Unmarshal(addr, f, text) == Unmarshal(addr, g, text)
  {
  }

  lemma {:induction false} PairsOfEach(pieces: seq<string>)
    ensures PairsOf(pieces).Some? ==>
              && |PairsOf(pieces).value| == |pieces|
              && forall i :: 0 <= i < |pieces| ==> PairOf(pieces[i]) == Some(PairsOf(pieces).value[i])
    ensures PairsOf(pieces).None? ==> exists i :: 0 <= i < |pieces| && PairOf(pieces[i]).None?
  {
    hide PairOf;
    if pieces != [] {
      PairsOfEach(pieces[1..]);
      if PairsOf(pieces).None? && PairOf(pieces[0]).Some? {
        var i :| 0 <= i < |pieces[1..]| && PairOf(pieces[1..][i]).None?;
        assert PairOf(pieces[i + 1]).None?;
      }
    }
  }

  // A field after loading, by its kind: the last text given for it itself, the
  // address that this text is, or true exactly for the texts of a true boolean.
  lemma LoadedByKind(addr: AddressParser, fields: Fields, pairs: seq<Pair>, fields': Fields, i: nat)
    requires LastValues(addr, fields, pairs, fields') && i < |pairs| && pairs[i].0 in fields
    requires forall j :: i < j < |pairs| ==> pairs[j].0 != pairs[i].0
    ensures var (k, text) := pairs[i];
            match fields[k]
            case TextField(_) => fields'[k] == TextField(text)
            case AddressField(_) =>
              fields'[k].AddressField? && (if text == "" then fields'[k].ip == [] else addr(text) == Some(fields'[k].ip))
            case BoolField(_) =>
              && fields'[k].BoolField?
              && (fields'[k].b <==> text == "1" || (|text| == 4 && text[0] in "tT" && text[1] in "rR"
                                                    && text[2] in "uU" && text[3] in "eE"))
            case Opaque => false
  {
    hide ParseBool;
    ParseBoolExact(pairs[i].1);
    assert Some(fields'[pairs[i].0]) == Unmarshal(addr, fields[pairs[i].0], pairs[i].1);
  }

  // Which texts a field takes, by its kind.
  lemma ParsesByKind(addr: AddressParser, f: Field, text: string)
    ensures Unmarshal(addr, f, text).Some? <==>
              match f
              case TextField(_) => true
              case AddressField(_) => text == "" || addr(text).Some?
              case BoolField(_) =>
                || text == "1" || text == "0"
                || (|text| == 4 && text[0] in "tT" && text[1] in "rR" && text[2] in "uU" && text[3] in "eE")
                || (|text| == 5 && text[0] in "fF" && text[1] in "aA" && text[2] in "lL"
                    && text[3] in "sS" && text[4] in "eE")
              case Opaque => false
  {
    hide ParseBool;
    ParseBoolExact(text);
    var b := ParseBool(text);
    if b.Some? && b.value {
      assert b == Some(true);
    } else if b.Some? {
      assert b == Some(false);
    }
  }

  // Loading stops at the first piece that is not a pair or whose value its field
  // does not take, with the fields as the pieces before it left them.
  lemma {:induction false} StopsAtFirstBadPiece(addr: AddressParser, fields: Fields, pieces: seq<string>)
    ensures var l := LoadPieces(addr, fields, pieces);
            l.error.Some? ==> exists i :: 0 <= i < |pieces| && StopsAt(addr, fields, pieces, i, l)
  {
    hide PairOf, Unmarshal;
    if pieces != [] {
      var n := |pieces| - 1;
      var before, l := pieces[..n], LoadPieces(addr, fields, pieces);
      if LoadPieces(addr, fields, before).error.Some? {
        StopsAtFirstBadPiece(addr, fields, before);
        var i :| 0 <= i < |before| && StopsAt(addr, fields, before, i, l);
        assert before[..i] == pieces[..i];
        assert StopsAt(addr, fields, pieces, i, l);
      } else if l.error.Some? {
        assert StopsAt(addr, fields, pieces, n, l);
      }
    }
  }

  ghost predicate StopsAt(addr: AddressParser, fields: Fields, pieces: seq<string>, i: nat, l: Loading)
    requires i < |pieces|
  {
    var before := LoadPieces(addr, fields, pieces[..i]);
    && before.error == None && l.fields == before.fields
    && match PairOf(pieces[i])
       case None => l.error == Some(InvalidPair)
       case Some((k, v)) =>
         && k in before.fields && Unmarshal(addr, before.fields[k], v) == None
         && l.error == if before.fields[k] == Opaque then Some(Panic) else Some(BadValue)
  }

  // A container without the boolean IgnoreUnknown panics, even if all loads well.
  lemma NoIgnoreUnknownPanics(addr: AddressParser, fields: Fields, args: string)
    requires args != "" && !HasIgnoreUnknown(fields)
    ensures Load(addr, fields, args).1.Some?
    ensures LoadPieces(addr, fields, Split(args, ';')).error == None ==> Load(addr, fields, args).1 == Some(Panic)
  {
    hide Split, LoadPieces;
    KindsStay(addr, fields, Split(args, ';'));
  }

  lemma BadPieceFails(addr: AddressParser, fields: Fields, pieces: seq<string>, i: nat)
    requires i < |pieces| && PairOf(pieces[i]).None?
    ensures LoadPieces(addr, fields, pieces).error.Some?
  {
    ErrorStays(addr, fields, pieces, i + 1);
    assert pieces[..i + 1][..i] == pieces[..i];
  }

  predicate HasIgnoreUnknown(fields: Fields)
  {
    "IgnoreUnknown" in fields && fields["IgnoreUnknown"].BoolField?
  }

  // LoadArgs succeeds exactly if every piece is a pair, every value of a known
  // key parses, and either no key is unknown or IgnoreUnknown ends up true,
  // wherever among the pairs it was set. Then each field has its last value.
  lemma LoadSucceedsExactly(addr: AddressParser, fields: Fields, args: string)
    requires args != "" && HasIgnoreUnknown(fields)
    ensures var (fields', err) := Load(addr, fields, args);
            var read := PairsOf(Split(args, ';'));
            && HasIgnoreUnknown(fields')
            && (err == None <==>
                  && read.Some? && AllParse(addr, fields, read.value)
                  && (AllKnown(fields, read.value) || fields'["IgnoreUnknown"].b))
            && (err == None || err == Some(UnknownArgs) ==>
                  read.Some? && LastValues(addr, fields, read.value, fields'))
  {
    hide PairOf, PairsOf, AllParse, LastValues, AllKnown, Split, LoadPieces;
    var pieces := Split(args, ';');
    PairsOfEach(pieces);
    KindsStay(addr, fields, pieces);
    ErrorsAreEarly(addr, fields, pieces);
    if PairsOf(pieces).Some? {
      LoadedPieces(addr, fields, pieces, PairsOf(pieces).value);
    } else {
      var i :| 0 <= i < |pieces| && PairOf(pieces[i]).None?;
      BadPieceFails(addr, fields, pieces, i);
    }
  }

  lemma {:induction false} KindsStay(addr: AddressParser, fields: Fields, pieces: seq<string>)
    ensures SameKinds(fields, LoadPieces(addr, fields, pieces).fields)
  {
    hide PairOf, Unmarshal;
    if pieces != [] {
      KindsStay(addr, fields, pieces[..|pieces| - 1]);
      var l := LoadPieces(addr, fields, pieces[..|pieces| - 1]);
      forall k, v | k in l.fields && Unmarshal(addr, l.fields[k], v).Some?
        ensures SameKinds(fields, l.fields[k := Unmarshal(addr, l.fields[k], v).value])
      {
        KindStays(addr, l.fields[k], v);
      }
    }
  }

  lemma {:induction false} ErrorsAreEarly(addr: AddressParser, fields: Fields, pieces: seq<string>)
    ensures LoadPieces(addr, fields, pieces).error != Some(UnknownArgs)
  {
    if pieces != [] {
      ErrorsAreEarly(addr, fields, pieces[..|pieces| - 1]);
    }
  }

  // LoadArgs undoes stringify: for pairs without separators, loading what was
  // printed gives every field the last of its values in the pairs, and succeeds
  // exactly if they parse and unknown keys are absent or ignored. No pairs at all
  // print as "", which loads as no change.
  lemma LoadUndoesStringify(addr: AddressParser, fields: Fields, pairs: seq<Pair>)
    requires HasIgnoreUnknown(fields)
    requires forall i :: 0 <= i < |pairs| ==> Plain(pairs[i].0) && Plain(pairs[i].1)
    ensures var (fields', err) := Load(addr, fields, Printed(pairs));
            && HasIgnoreUnknown(fields')
            && (err == None <==> AllParse(addr, fields, pairs)
                                 && (AllKnown(fields, pairs) || fields'["IgnoreUnknown"].b))
            && (err == None || err == Some(UnknownArgs) ==> LastValues(addr, fields, pairs, fields'))
  {
    hide Split, PairsOf, Plain, Load;
    if pairs == [] {
      LoadNothing(addr, fields);
    } else {
      PrintedReadsBackExactly(pairs);
      LoadSucceedsExactly(addr, fields, Printed(pairs));
    }
  }

  lemma LoadNothing(addr: AddressParser, fields: Fields)
    ensures Load(addr, fields, Printed([])) == (fields, None)
  {
  }

  // The printed form, by example; and the empty list, which prints as nothing.
  lemma PrintedForm()
    ensures Printed([("A", "1"), ("B", "2")]) == "A=1;B=2" && Printed([]) == ""
  {
    assert Entry(("A", "1")) == "A=1" && Entry(("B", "2")) == "B=2" by {
      assert ["A", "1"][1..] == ["1"] && ["B", "2"][1..] == ["2"];
    }
    assert [("A", "1"), ("B", "2")][1..] == [("B", "2")];
    assert [("B", "2")][1..] == [];
    assert Entries([("A", "1"), ("B", "2")]) == ["A=1", "B=2"];
    assert ["A=1", "B=2"][1..] == ["B=2"];
  }
}
