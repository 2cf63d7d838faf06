/** Fully qualified board names: vendor:architecture:board[:key=value,...]. The options are kept
    in an insertion-ordered map. */
module Fqbn {
  import opened Wrappers
  import opened Strings
  import opened Lists
  import opened OrderedMap

  type OptionMap = Map<string, string, string>

  function Self(k: string): string { k }

  /** The value of an FQBN object: the option keys in order and their values. */
  datatype Name = Name(vendor: string, architecture: string, board: string, keys: seq<string>, options: map<string, string>)

  datatype ParseError = NotAnFqbn | EmptyBoard | InvalidField(field: string) | InvalidOption(pair: string)
                      | InvalidKey(key: string) | InvalidValue(text: string)

  // ----- the grammar

  predicate FieldChar(c: char) {
    'a' <= c <= 'z' || 'A' <= c <= 'Z' || '0' <= c <= '9' || c == '_' || c == '.' || c == '-'
  }

  /** ^[a-zA-Z0-9_.-]*$ */
  predicate FieldOk(s: string) {
    forall c :: c in s ==> FieldChar(c)
  }

  /** ^[a-zA-Z0-9=_.-]*$ */
  predicate ValueOk(s: string) {
    forall c :: c in s ==> FieldChar(c) || c == '='
  }

  /** unicode.IsSpace */
  predicate IsSpace(c: char) {
    var u := c as int;
    9 <= u <= 13 || u == 0x20 || u == 0x85 || u == 0xA0 || u == 0x1680 || 0x2000 <= u <= 0x200A
    || u == 0x2028 || u == 0x2029 || u == 0x202F || u == 0x205F || u == 0x3000
  }

  function TrimLeft(s: string): string {
    if s != "" && IsSpace(s[0]) then TrimLeft(s[1..]) else s
  }

  function TrimRight(s: string): string {
    if s != "" && IsSpace(s[|s| - 1]) then TrimRight(s[..|s| - 1]) else s
  }

  function TrimSpace(s: string): string {
    TrimRight(TrimLeft(s))
  }

  /** strings.SplitN(s, "=", 2) when it yields two parts. */
  function Cut(s: string): Option<(string, string)> {
    if s == "" then None
    else if s[0] == '=' then Some(("", s[1..]))
    else match Cut(s[1..])
      case None => None
      case Some((k, v)) => Some(([s[0]] + k, v))
  }

  function ParsePair(pair: string): PairResult {
    match Cut(pair)
    case None => Failure(InvalidOption(pair))
    case Some((rawKey, rawValue)) =>
      var k, v := TrimSpace(rawKey), TrimSpace(rawValue);
      if k == "" then Failure(InvalidOption(pair))
      else if !FieldOk(k) then Failure(InvalidKey(k))
      else if !ValueOk(v) then Failure(InvalidValue(v))
      else Success((k, v))
  }

  ghost function SetOption(f: Name, k: string, v: string): Name {
    f.(keys := Minus(Self, f.keys, {k}) + [k], options := f.options[k := v])
  }

  ghost function RemoveOption(f: Name, k: string): Name {
    f.(keys := Minus(Self, f.keys, {k}), options := f.options - {k})
  }

  type PairResult = Result<(string, string), ParseError>

  function PairResults(pairs: seq<string>): (r: seq<PairResult>)
    ensures |r| == |pairs|
  {
    seq(|pairs|, i requires 0 <= i < |pairs| => ParsePair(pairs[i]))
  }

  /** Sets the parsed options one after the other; the first bad one decides the error. */
  ghost function AddPairs(f: Name, rs: seq<PairResult>): Result<Name, ParseError> {
    if rs == [] then Success(f)
    else
      var n := |rs| - 1;
      match AddPairs(f, rs[..n])
      case Failure(e) => Failure(e)
      case Success(g) =>
        match rs[n]
        case Failure(e) => Failure(e)
        case Success((k, v)) => Success(SetOption(g, k, v))
  }

  function Core(parts: seq<string>): Result<Name, ParseError> {
    if |parts| < 3 || |parts| > 4 then Failure(NotAnFqbn)
    else if parts[2] == "" then Failure(EmptyBoard)
    else if !FieldOk(parts[0]) then Failure(InvalidField(parts[0]))
    else if !FieldOk(parts[1]) then Failure(InvalidField(parts[1]))
    else if !FieldOk(parts[2]) then Failure(InvalidField(parts[2]))
    else Success(Name(parts[0], parts[1], parts[2], [], map[]))
  }

  ghost function Parsed(s: string): Result<Name, ParseError> {
    var parts := Split(s, ':');
    match Core(parts)
    case Failure(e) => Failure(e)
    case Success(f) => if |parts| == 4 then AddPairs(f, PairResults(Split(parts[3], ','))) else Success(f)
  }

  function WithoutConfig(f: Name): string {
    f.vendor + ":" + f.architecture + ":" + f.board
  }

  function Pairs(f: Name): (r: seq<string>)
    requires forall k :: k in f.keys ==> k in f.options
    ensures |r| == |f.keys|
  {
    seq(|f.keys|, i requires 0 <= i < |f.keys| => f.keys[i] + "=" + f.options[f.keys[i]])
  }

  function Printed(f: Name): string
    requires forall k :: k in f.keys ==> k in f.options
  {
    WithoutConfig(f) + if f.keys == [] then "" else ":" + Join(Pairs(f), ',')
  }

  // ----- what Parse can return, and the round trip

  ghost predicate NoRepeats(keys: seq<string>) {
    forall i, j :: 0 <= i < j < |keys| ==> keys[i] != keys[j]
  }

  ghost predicate WellFormed(f: Name) {
    && FieldOk(f.vendor) && FieldOk(f.architecture) && FieldOk(f.board) && f.board != ""
    && NoRepeats(f.keys) && (forall k :: k in f.keys <==> k in f.options)
    && (forall k :: k in f.options ==> k != "" && FieldOk(k) && ValueOk(f.options[k]))
  }

  lemma SetOptionWellFormed(f: Name, k: string, v: string)
    requires WellFormed(f) && k != "" && FieldOk(k) && ValueOk(v)
    ensures WellFormed(SetOption(f, k, v))
  {
    MinusDistinct(Self, f.keys, {k});
    forall x ensures x in Minus(Self, f.keys, {k}) <==> x in f.keys && x != k { MinusHas(Self, f.keys, {k}, x); }
  }

  lemma {:induction false} AddPairsWellFormed(f: Name, rs: seq<PairResult>)
    requires WellFormed(f) && AddPairs(f, rs).Success?
    requires forall i :: 0 <= i < |rs| && rs[i].Success? ==>
      rs[i].value.0 != "" && FieldOk(rs[i].value.0) && ValueOk(rs[i].value.1)
    ensures WellFormed(AddPairs(f, rs).value)
  {
    if rs != [] {
      var n := |rs| - 1;
      AddPairsWellFormed(f, rs[..n]);
      SetOptionWellFormed(AddPairs(f, rs[..n]).value, rs[n].value.0, rs[n].value.1);
    }
  }

  lemma ParsedIsWellFormed(s: string)
    requires Parsed(s).Success?
    ensures WellFormed(Parsed(s).value)
  {
    var parts := Split(s, ':');
    if |parts| == 4 {
      AddPairsWellFormed(Core(parts).value, PairResults(Split(parts[3], ',')));
    }
  }

  lemma {:induction false} CutPair(k: string, v: string)
    requires '=' !in k
    ensures Cut(k + "=" + v) == Some((k, v))
  {
    if k == "" {
      assert (k + "=" + v)[1..] == v;
    } else {
      CutPair(k[1..], v);
      assert (k + "=" + v)[1..] == k[1..] + "=" + v;
      assert [k[0]] + k[1..] == k;
    }
  }

  lemma TrimNothing(s: string)
    requires ValueOk(s)
    ensures TrimSpace(s) == s
  {
    if s != "" {
      assert s[0] in s && s[|s| - 1] in s;
    }
  }

  lemma ParsePrintedPair(k: string, v: string)
    requires k != "" && FieldOk(k) && ValueOk(v)
    ensures ParsePair(k + "=" + v) == Success((k, v))
  {
    CutPair(k, v);
    TrimNothing(k);
    TrimNothing(v);
  }

  /** The name with only its first `i` options. */
  ghost function FirstOptions(f: Name, i: nat): Name
    requires WellFormed(f) && i <= |f.keys|
  {
    f.(keys := f.keys[..i], options := map k | k in f.keys[..i] :: f.options[k])
  }

  lemma OneMoreOption(f: Name, i: nat)
    requires WellFormed(f) && i < |f.keys|
    ensures f.keys[i] in f.options
    ensures SetOption(FirstOptions(f, i), f.keys[i], f.options[f.keys[i]]) == FirstOptions(f, i + 1)
  {
    var k := f.keys[i];
    assert k in f.keys;
    MinusNone(Self, f.keys[..i], {k});
    assert f.keys[..i + 1] == f.keys[..i] + [k];
    OneMoreValue(f, i);
  }

  lemma OneMoreValue(f: Name, i: nat)
    requires WellFormed(f) && i < |f.keys| && f.keys[i] in f.options
    ensures FirstOptions(f, i).options[f.keys[i] := f.options[f.keys[i]]] == FirstOptions(f, i + 1).options
  {
    var a, b := FirstOptions(f, i).options[f.keys[i] := f.options[f.keys[i]]], FirstOptions(f, i + 1).options;
    assert f.keys[..i + 1] == f.keys[..i] + [f.keys[i]];
    assert a.Keys == b.Keys;
  }

  /** Setting the first `i` options gives the first `i` options. */
  lemma {:induction false} AddOptions(f: Name, rs: seq<PairResult>, i: nat)
    requires WellFormed(f) && i <= |f.keys| == |rs|
    requires forall j :: 0 <= j < |rs| ==> f.keys[j] in f.options && rs[j] == Success((f.keys[j], f.options[f.keys[j]]))
    ensures AddPairs(FirstOptions(f, 0), rs[..i]) == Success(FirstOptions(f, i))
  {
    if i > 0 {
      AddOptions(f, rs, i - 1);
      OneMoreOption(f, i - 1);
      assert rs[..i][..i - 1] == rs[..i - 1];
    }
  }

  lemma PrintedPairsParse(f: Name)
    requires WellFormed(f) && f.keys != []
    ensures AddPairs(Name(f.vendor, f.architecture, f.board, [], map[]), PairResults(Split(Join(Pairs(f), ','), ','))) == Success(f)
  {
    AllPairsClean(f);
    SplitJoin(Pairs(f), ',');
    var rs := PairResults(Pairs(f));
    forall j | 0 <= j < |rs| ensures f.keys[j] in f.options && rs[j] == Success((f.keys[j], f.options[f.keys[j]])) {
      assert f.keys[j] in f.keys;
      ParsePrintedPair(f.keys[j], f.options[f.keys[j]]);
    }
    AddOptions(f, rs, |f.keys|);
    AllOptions(f);
    assert rs[..|f.keys|] == rs;
  }

  lemma AllOptions(f: Name)
    requires WellFormed(f)
    ensures FirstOptions(f, |f.keys|) == f
    ensures FirstOptions(f, 0) == Name(f.vendor, f.architecture, f.board, [], map[])
  {
    assert f.keys[..|f.keys|] == f.keys;
    assert FirstOptions(f, |f.keys|).options == f.options;
    assert FirstOptions(f, 0).options == map[];
  }

  lemma NoColon(s: string, c: char)
    requires ValueOk(s) && (c == ':' || c == ',')
    ensures c !in s
  {}

  lemma PrintedPairsClean(f: Name, i: nat)
    requires WellFormed(f) && i < |f.keys|
    ensures ':' !in Pairs(f)[i] && ',' !in Pairs(f)[i]
  {
    assert f.keys[i] in f.keys;
    NoColon(f.keys[i], ':');
    NoColon(f.keys[i], ',');
    NoColon(f.options[f.keys[i]], ':');
    NoColon(f.options[f.keys[i]], ',');
  }

  lemma AllPairsClean(f: Name)
    requires WellFormed(f)
    ensures forall p :: p in Pairs(f) ==> ':' !in p && ',' !in p
  {
    forall p | p in Pairs(f) ensures ':' !in p && ',' !in p {
      var i :| 0 <= i < |Pairs(f)| && Pairs(f)[i] == p;
      PrintedPairsClean(f, i);
    }
  }

  lemma {:induction false} JoinClean(parts: seq<string>, sep: char, c: char)
    requires c != sep && forall p :: p in parts ==> c !in p
    ensures c !in Join(parts, sep)
  {
    if |parts| > 1 { JoinClean(parts[1..], sep, c); }
  }

  /** The board and the options, as one or two parts. */
  ghost function Tail(f: Name): string
    requires WellFormed(f)
  {
    if f.keys == [] then f.board else f.board + ":" + Join(Pairs(f), ',')
  }

  ghost function TailParts(f: Name): seq<string>
    requires WellFormed(f)
  {
    if f.keys == [] then [f.board] else [f.board, Join(Pairs(f), ',')]
  }

  lemma TailSplits(f: Name)
    requires WellFormed(f)
    ensures Split(Tail(f), ':') == TailParts(f)
  {
    NoColon(f.board, ':');
    if f.keys == [] {
      SplitWhole(f.board, ':');
    } else {
      AllPairsClean(f);
      JoinClean(Pairs(f), ',', ':');
      SplitTwo(f.board, Join(Pairs(f), ','));
    }
  }

  lemma SplitTwo(a: string, b: string)
    requires ':' !in a && ':' !in b
    ensures Split(a + ":" + b, ':') == [a, b]
  {
    SplitWhole(b, ':');
    SplitHead(a, b, ':');
  }

  lemma PrintedSplits(f: Name)
    requires WellFormed(f)
    ensures Split(Printed(f), ':') == [f.vendor, f.architecture] + TailParts(f)
  {
    NoColon(f.vendor, ':');
    NoColon(f.architecture, ':');
    TailSplits(f);
    SplitHead(f.architecture, Tail(f), ':');
    SplitHead(f.vendor, f.architecture + ":" + Tail(f), ':');
    assert Printed(f) == f.vendor + [':'] + (f.architecture + ":" + Tail(f));
  }

  /** Parsing inverts printing on every well-formed name: same fields, same options, same
      option order. */
  lemma RoundTrip(f: Name)
    requires WellFormed(f)
    ensures Parsed(Printed(f)) == Success(f)
  {
    PrintedSplits(f);
    if f.keys != [] {
      PrintedPairsParse(f);
    } else {
      assert f.options == map[];
    }
  }

  /** Exactly the well-formed names can be parsed, and printing after parsing is a normal form
      that parses to the same name. */
  lemma ParseRange(f: Name)
    ensures (exists s :: Parsed(s) == Success(f)) <==> WellFormed(f)
  {
    if WellFormed(f) {
      RoundTrip(f);
      assert Parsed(Printed(f)) == Success(f);
    } else {
      forall s | Parsed(s) == Success(f) ensures false {
        ParsedIsWellFormed(s);
      }
    }
  }

  lemma NormalForm(s: string)
    requires Parsed(s).Success?
    ensures WellFormed(Parsed(s).value)
    ensures Parsed(Printed(Parsed(s).value)) == Parsed(s)
  {
    ParsedIsWellFormed(s);
    RoundTrip(Parsed(s).value);
  }

  // ----- which texts are accepted

  /** The letters, the digits and the three signs, by their codes. */
  ghost predicate FieldCode(u: int) {
    u in {
      97, 98, 99, 100, 101, 102, 103, 104, 105, 106, 107, 108, 109, // a to m
      110, 111, 112, 113, 114, 115, 116, 117, 118, 119, 120, 121, 122, // n to z
      65, 66, 67, 68, 69, 70, 71, 72, 73, 74, 75, 76, 77, // A to M
      78, 79, 80, 81, 82, 83, 84, 85, 86, 87, 88, 89, 90, // N to Z
      48, 49, 50, 51, 52, 53, 54, 55, 56, 57, // 0 to 9
      95, 46, 45 // underscore, dot and dash
    }
  }

  lemma FieldCodeIs(u: int)
    ensures FieldCode(u) <==> 97 <= u <= 122 || 65 <= u <= 90 || 48 <= u <= 57 || u == 95 || u == 46 || u == 45
  {}

  lemma FieldCharIff(c: char)
    ensures FieldChar(c) <==> FieldCode(c as int)
  {
    FieldCodeIs(c as int);
    assert (c as int) as char == c;
  }

  const SPACES := {0x09, 0x0A, 0x0B, 0x0C, 0x0D, 0x20, 0x85, 0xA0, 0x1680, 0x2000, 0x2001, 0x2002, 0x2003, 0x2004, 0x2005,
                   0x2006, 0x2007, 0x2008, 0x2009, 0x200A, 0x2028, 0x2029, 0x202F, 0x205F, 0x3000}

  lemma IsSpaceIff(c: char)
    ensures IsSpace(c) <==> c as int in SPACES
  {}

  ghost predicate AllSpaces(s: string) {
    forall i :: 0 <= i < |s| ==> IsSpace(s[i])
  }

  /** No space at either end. */
  ghost predicate Trimmed(s: string) {
    s == "" || (!IsSpace(s[0]) && !IsSpace(s[|s| - 1]))
  }

  /** The text `s`, with spaces around it. */
  ghost predicate Padded(text: string, s: string) {
    exists a, b :: AllSpaces(a) && AllSpaces(b) && text == a + s + b
  }

  lemma {:induction false} TrimLeftIs(s: string) returns (i: nat)
    ensures i <= |s| && AllSpaces(s[..i]) && TrimLeft(s) == s[i..] && (i < |s| ==> !IsSpace(s[i]))
  {
    if s != "" && IsSpace(s[0]) {
      var tail := s[1..];
      var rest := TrimLeftIs(tail);
      i := rest + 1;
      SpacesBefore(s, rest);
      assert s[i..] == tail[rest..];
    } else {
      i := 0;
    }
  }

  lemma SpacesBefore(s: string, n: nat)
    requires s != "" && IsSpace(s[0]) && n <= |s[1..]| && AllSpaces(s[1..][..n])
    ensures AllSpaces(s[..n + 1])
  {
    forall i | 0 <= i < n + 1 ensures IsSpace(s[i]) {
      if i > 0 { assert s[i] == s[1..][..n][i - 1]; }
    }
  }

  lemma {:induction false} TrimRightIs(s: string) returns (i: nat)
    ensures i <= |s| && AllSpaces(s[i..]) && TrimRight(s) == s[..i]
    ensures TrimRight(s) == "" || !IsSpace(TrimRight(s)[|TrimRight(s)| - 1])
  {
    var n := |s| - 1;
    if s != "" && IsSpace(s[n]) {
      i := TrimRightIs(s[..n]);
      assert s[i..] == s[..n][i..] + [s[n]] && s[..i] == s[..n][..i];
    } else {
      i := |s|;
      assert s[..i] == s && s[i..] == "";
    }
  }

  /** Trimming takes away the spaces at both ends, and only them. */
  lemma TrimSpaceIs(s: string)
    ensures Padded(s, TrimSpace(s)) && Trimmed(TrimSpace(s))
  {
    var i := TrimLeftIs(s);
    var t := TrimLeft(s);
    var k := TrimRightIs(t);
    assert s == s[..i] + t && t == t[..k] + t[k..];
    assert s == s[..i] + TrimSpace(s) + t[k..];
    if TrimSpace(s) != "" { assert TrimSpace(s)[0] == t[0]; }
  }

  /** So whatever the spaces, the same text comes out. */
  lemma {:induction false} TrimIsUnique(text: string, a: string, s: string, b: string)
    requires AllSpaces(a) && AllSpaces(b) && Trimmed(s) && text == a + s + b
    ensures TrimSpace(text) == s
    decreases |a|
  {
    if a != "" {
      assert text[0] == a[0] && text[1..] == a[1..] + s + b;
      TrimIsUnique(text[1..], a[1..], s, b);
    } else {
      assert text == s + b;
      TrimRightOf(s, b);
      if s == "" {
        AllTrimmed(b);
        assert text == b;
      }
    }
  }

  lemma {:induction false} TrimRightOf(s: string, b: string)
    requires AllSpaces(b) && Trimmed(s)
    ensures TrimRight(s + b) == s
    decreases |b|
  {
    if b == "" {
      assert s + b == s;
    } else {
      var n := |b| - 1;
      assert (s + b)[..|s + b| - 1] == s + b[..n];
      TrimRightOf(s, b[..n]);
    }
  }

  lemma {:induction false} AllTrimmed(b: string)
    requires AllSpaces(b)
    ensures TrimLeft(b) == ""
  {
    if b != "" { AllTrimmed(b[1..]); }
  }

  /** The text of one option: a key and a value around the first equals sign, with spaces around both. */
  ghost predicate OptionText(pair: string, k: string, v: string) {
    exists left, right :: '=' !in left && pair == left + "=" + right
      && Padded(left, k) && Padded(right, v) && Trimmed(k) && Trimmed(v)
  }

  lemma {:induction false} CutIs(s: string)
    ensures match Cut(s)
      case None => '=' !in s
      case Some((l, r)) => '=' !in l && s == l + "=" + r
  {
    if s != "" {
      CutIs(s[1..]);
      assert s == [s[0]] + s[1..];
    }
  }

  lemma OptionTextIs(pair: string, k: string, v: string)
    ensures OptionText(pair, k, v) <==> Cut(pair).Some? && k == TrimSpace(Cut(pair).value.0) && v == TrimSpace(Cut(pair).value.1)
  {
    CutIs(pair);
    if OptionText(pair, k, v) {
      var left, right :| '=' !in left && pair == left + "=" + right
        && Padded(left, k) && Padded(right, v) && Trimmed(k) && Trimmed(v);
      CutPair(left, right);
      var a, b :| AllSpaces(a) && AllSpaces(b) && left == a + k + b;
      var c, d :| AllSpaces(c) && AllSpaces(d) && right == c + v + d;
      TrimIsUnique(left, a, k, b);
      TrimIsUnique(right, c, v, d);
    }
    if Cut(pair).Some? {
      TrimSpaceIs(Cut(pair).value.0);
      TrimSpaceIs(Cut(pair).value.1);
    }
  }

  lemma OptionTextUnique(pair: string, k: string, v: string, k': string, v': string)
    requires OptionText(pair, k, v) && OptionText(pair, k', v')
    ensures k == k' && v == v'
  {
    OptionTextIs(pair, k, v);
    OptionTextIs(pair, k', v');
  }

  /** What one option comes to, as a text: its key and value, or the error and what it is about. */
  lemma ParsePairIs(pair: string)
    ensures match ParsePair(pair)
      case Success((k, v)) => OptionText(pair, k, v) && k != "" && FieldOk(k) && ValueOk(v)
      case Failure(InvalidOption(p)) => p == pair && ('=' !in pair || exists v :: OptionText(pair, "", v))
      case Failure(InvalidKey(k)) => k != "" && !FieldOk(k) && exists v :: OptionText(pair, k, v)
      case Failure(InvalidValue(v)) => !ValueOk(v) && exists k :: OptionText(pair, k, v) && k != "" && FieldOk(k)
      case Failure(_) => false
  {
    CutIs(pair);
    if Cut(pair).Some? {
      var k, v := TrimSpace(Cut(pair).value.0), TrimSpace(Cut(pair).value.1);
      OptionTextIs(pair, k, v);
    }
  }

  lemma ParsePairIff(pair: string, k: string, v: string)
    ensures ParsePair(pair) == Success((k, v)) <==> OptionText(pair, k, v) && k != "" && FieldOk(k) && ValueOk(v)
  {
    ParsePairIs(pair);
    OptionTextIs(pair, k, v);
  }

  /** A list of parts without the separator, joined to this text. */
  ghost predicate PartsOf(text: string, sep: char, parts: seq<string>) {
    parts != [] && (forall p :: p in parts ==> sep !in p) && Join(parts, sep) == text
  }

  lemma PartsAre(text: string, sep: char, parts: seq<string>)
    ensures PartsOf(text, sep, parts) <==> parts == Split(text, sep)
  {
    JoinSplit(text, sep);
    if PartsOf(text, sep, parts) { SplitJoin(parts, sep); }
  }

  ghost predicate OptionOk(pair: string) {
    exists k, v :: OptionText(pair, k, v) && k != "" && FieldOk(k) && ValueOk(v)
  }

  /** Three or four parts between colons, the first three of field characters and the third not empty;
      a fourth is a list of options between commas. */
  ghost predicate AcceptedText(parts: seq<string>, pairs: seq<string>) {
    && 3 <= |parts| <= 4 && FieldOk(parts[0]) && FieldOk(parts[1]) && FieldOk(parts[2]) && parts[2] != ""
    && (|parts| == 4 ==> PartsOf(parts[3], ',', pairs) && forall p :: p in pairs ==> OptionOk(p))
  }

  ghost predicate AllParsed(rs: seq<PairResult>) {
    forall i :: 0 <= i < |rs| ==> rs[i].Success?
  }

  lemma AllParsedSnoc(rs: seq<PairResult>)
    requires rs != []
    ensures AllParsed(rs) <==> AllParsed(rs[..|rs| - 1]) && rs[|rs| - 1].Success?
  {
    assert forall i :: 0 <= i < |rs| - 1 ==> rs[..|rs| - 1][i] == rs[i];
  }

  lemma {:induction false} AddPairsSucceeds(f: Name, rs: seq<PairResult>)
    ensures AddPairs(f, rs).Success? <==> AllParsed(rs)
  {
    if rs != [] {
      AddPairsSucceeds(f, rs[..|rs| - 1]);
      AllParsedSnoc(rs);
    }
  }

  lemma OptionsParse(f: Name, pairs: seq<string>)
    ensures AddPairs(f, PairResults(pairs)).Success? <==> forall p :: p in pairs ==> OptionOk(p)
  {
    AddPairsSucceeds(f, PairResults(pairs));
    forall p ensures OptionOk(p) <==> ParsePair(p).Success? {
      ParsePairIs(p);
      if OptionOk(p) {
        var k, v :| OptionText(p, k, v) && k != "" && FieldOk(k) && ValueOk(v);
        ParsePairIff(p, k, v);
      }
    }
    assert forall i :: 0 <= i < |pairs| ==> PairResults(pairs)[i] == ParsePair(pairs[i]);
  }

  /** Exactly these texts are accepted, with the first three parts as the fields. */
  lemma AcceptedIff(s: string)
    ensures Parsed(s).Success? <==> exists parts, pairs :: PartsOf(s, ':', parts) && AcceptedText(parts, pairs)
    ensures forall parts :: PartsOf(s, ':', parts) && Parsed(s).Success? ==>
      |parts| >= 3 && Parsed(s).value.vendor == parts[0] && Parsed(s).value.architecture == parts[1] && Parsed(s).value.board == parts[2]
  {
    var parts := Split(s, ':');
    PartsAre(s, ':', parts);
    forall parts' ensures PartsOf(s, ':', parts') ==> parts' == parts { PartsAre(s, ':', parts'); }
    var pairs := if |parts| == 4 then Split(parts[3], ',') else [];
    if |parts| == 4 {
      forall pairs' ensures PartsOf(parts[3], ',', pairs') <==> pairs' == pairs { PartsAre(parts[3], ',', pairs'); }
      if Core(parts).Success? {
        OptionsParse(Core(parts).value, pairs);
        AddPairsCore(Core(parts).value, PairResults(pairs));
      }
    }
    assert Parsed(s).Success? <==> AcceptedText(parts, pairs);
  }

  lemma {:induction false} AddPairsCore(f: Name, rs: seq<PairResult>)
    ensures AddPairs(f, rs).Success? ==>
      var g := AddPairs(f, rs).value; g.vendor == f.vendor && g.architecture == f.architecture && g.board == f.board
  {
    if rs != [] { AddPairsCore(f, rs[..|rs| - 1]); }
  }

  /** The option list of an accepted text: the keys that occur, each with the value of its last
      occurrence, in the order of the last occurrences. */
  lemma OptionsAre(f: Name, rs: seq<PairResult>)
    requires f.keys == [] && f.options == map[] && AllParsed(rs) && AddPairs(f, rs).Success?
    ensures var g := AddPairs(f, rs).value;
      && g.keys == KeysByLast(rs)
      && (forall i :: 0 <= i < |rs| && LastOfKey(rs, i) ==> HasValueOf(g, rs, i))
      && (forall k :: k in g.options ==> KeyOccurs(rs, k))
  {
    KeysAre(f, rs);
    forall i | 0 <= i < |rs| && LastOfKey(rs, i) ensures HasValueOf(AddPairs(f, rs).value, rs, i) {
      ValuesAre(f, rs, i);
    }
    forall k | k in AddPairs(f, rs).value.options ensures KeyOccurs(rs, k) {
      OnlyKeys(f, rs, k);
    }
  }

  ghost predicate KeyOccurs(rs: seq<PairResult>, k: string)
    requires AllParsed(rs)
  {
    exists i :: 0 <= i < |rs| && rs[i].value.0 == k
  }

  lemma {:induction false} KeysAre(f: Name, rs: seq<PairResult>)
    requires f.keys == [] && AllParsed(rs) && AddPairs(f, rs).Success?
    ensures AddPairs(f, rs).value.keys == KeysByLast(rs)
  {
    if rs != [] {
      KeysAre(f, rs[..|rs| - 1]);
      KeysByLastSnoc(rs);
    }
  }

  /** The value of the option is that of result `i`. */
  ghost predicate HasValueOf(g: Name, rs: seq<PairResult>, i: nat)
    requires i < |rs| && AllParsed(rs)
  {
    rs[i].value.0 in g.options && g.options[rs[i].value.0] == rs[i].value.1
  }

  lemma {:induction false} ValuesAre(f: Name, rs: seq<PairResult>, i: nat)
    requires AllParsed(rs) && AddPairs(f, rs).Success? && i < |rs| && LastOfKey(rs, i)
    ensures HasValueOf(AddPairs(f, rs).value, rs, i)
  {
    var n := |rs| - 1;
    if i < n {
      LastBefore(rs, i);
      ValuesAre(f, rs[..n], i);
      ValueStays(AddPairs(f, rs[..n]).value, rs, i);
    }
  }

  lemma ValueStays(g: Name, rs: seq<PairResult>, i: nat)
    requires i < |rs| - 1 && AllParsed(rs) && AllParsed(rs[..|rs| - 1]) && HasValueOf(g, rs[..|rs| - 1], i)
    requires rs[|rs| - 1].value.0 != rs[i].value.0
    ensures HasValueOf(SetOption(g, rs[|rs| - 1].value.0, rs[|rs| - 1].value.1), rs, i)
  {}

  lemma LastBefore(rs: seq<PairResult>, i: nat)
    requires i < |rs| - 1 && AllParsed(rs) && LastOfKey(rs, i)
    ensures AllParsed(rs[..|rs| - 1]) && LastOfKey(rs[..|rs| - 1], i) && rs[..|rs| - 1][i] == rs[i]
    ensures rs[|rs| - 1].value.0 != rs[i].value.0
  {}

  lemma {:induction false} OnlyKeys(f: Name, rs: seq<PairResult>, k: string)
    requires f.options == map[] && AllParsed(rs) && AddPairs(f, rs).Success? && k in AddPairs(f, rs).value.options
    ensures KeyOccurs(rs, k)
  {
    if rs != [] {
      var n := |rs| - 1;
      if k == rs[n].value.0 {
        assert KeyOccurs(rs, k);
      } else {
        OnlyKeys(f, rs[..n], k);
        var i :| 0 <= i < n && rs[..n][i].value.0 == k;
        assert rs[i].value.0 == k;
      }
    }
  }

  ghost predicate LastOfKey(rs: seq<PairResult>, i: nat)
    requires i < |rs| && AllParsed(rs)
  {
    forall j :: i < j < |rs| ==> rs[j].value.0 != rs[i].value.0
  }

  /** The keys at their last occurrences. */
  ghost function KeysByLast(rs: seq<PairResult>): seq<string>
    requires AllParsed(rs)
  {
    if rs == [] then []
    else HeadKey(rs) + KeysByLast(rs[1..])
  }

  lemma {:induction false} KeysByLastSnoc(rs: seq<PairResult>)
    requires rs != [] && AllParsed(rs)
    ensures var n := |rs| - 1;
      KeysByLast(rs) == Minus(Self, KeysByLast(rs[..n]), {rs[n].value.0}) + [rs[n].value.0]
  {
    var n := |rs| - 1;
    if n > 0 {
      KeysByLastSnoc(rs[1..]);
      SnocStep(rs, rs[1..], rs[..n], rs[n].value.0);
    } else {
      assert rs[..0] == [] && rs[1..] == [];
    }
  }

  lemma SnocStep(rs: seq<PairResult>, tail: seq<PairResult>, front: seq<PairResult>, last: string)
    requires |rs| > 1 && AllParsed(rs) && tail == rs[1..] && front == rs[..|rs| - 1] && last == rs[|rs| - 1].value.0
    requires KeysByLast(tail) == Minus(Self, KeysByLast(tail[..|tail| - 1]), {tail[|tail| - 1].value.0}) + [tail[|tail| - 1].value.0]
    ensures KeysByLast(rs) == Minus(Self, KeysByLast(front), {last}) + [last]
  {
    assert tail[..|tail| - 1] == front[1..] && tail[|tail| - 1].value.0 == last;
    var kept := Minus(Self, KeysByLast(front[1..]), {last});
    assert KeysByLast(rs) == HeadKey(rs) + (kept + [last]);
    HeadWithout(rs, last);
    KeysInParts(front, last);
    Reassociate(HeadKey(rs), kept, [last]);
  }

  lemma Reassociate(a: seq<string>, b: seq<string>, c: seq<string>)
    ensures a + (b + c) == a + b + c
  {}

  lemma KeysInParts(rs: seq<PairResult>, last: string)
    requires rs != [] && AllParsed(rs)
    ensures Minus(Self, KeysByLast(rs), {last}) == Minus(Self, HeadKey(rs), {last}) + Minus(Self, KeysByLast(rs[1..]), {last})
  {
    MinusConcat(Self, HeadKey(rs), KeysByLast(rs[1..]), {last});
  }

  /** The first key, if it does not come again. */
  ghost function HeadKey(rs: seq<PairResult>): seq<string>
    requires rs != [] && AllParsed(rs)
  {
    if LastOfKey(rs, 0) then [rs[0].value.0] else []
  }

  lemma HeadWithout(rs: seq<PairResult>, last: string)
    requires |rs| > 1 && AllParsed(rs) && last == rs[|rs| - 1].value.0
    ensures HeadKey(rs) == Minus(Self, HeadKey(rs[..|rs| - 1]), {last})
  {
    var n := |rs| - 1;
    var k := rs[0].value.0;
    assert LastOfKey(rs, 0) <==> LastOfKey(rs[..n], 0) && k != last;
    if LastOfKey(rs[..n], 0) {
      assert [k][..0] == [];
      assert Minus(Self, [k], {last}) == if k == last then [] else [k];
    }
  }

  /** Which error: not three or four parts; no board; the first field with a wrong character; the error
      of the first option that has one. */
  lemma ErrorIs(s: string, parts: seq<string>)
    requires PartsOf(s, ':', parts)
    ensures Parsed(s) == Failure(NotAnFqbn) <==> |parts| != 3 && |parts| != 4
    ensures Parsed(s) == Failure(EmptyBoard) <==> 3 <= |parts| <= 4 && parts[2] == ""
    ensures 3 <= |parts| <= 4 && parts[2] != "" ==> forall i :: 0 <= i < 3 && FirstBadField(parts, i) ==> Parsed(s) == Failure(InvalidField(parts[i]))
    ensures |parts| == 4 && parts[2] != "" && FieldOk(parts[0]) && FieldOk(parts[1]) && FieldOk(parts[2]) ==>
      forall pairs, i :: PartsOf(parts[3], ',', pairs) && 0 <= i < |pairs| && FirstBadOption(pairs, i) ==>
        Parsed(s) == Failure(ParsePair(pairs[i]).error)
  {
    PartsAre(s, ':', parts);
    if 3 <= |parts| <= 4 && Core(parts).Success? && |parts| == 4 {
      forall pairs, i | PartsOf(parts[3], ',', pairs) && 0 <= i < |pairs| && FirstBadOption(pairs, i)
        ensures Parsed(s) == Failure(ParsePair(pairs[i]).error)
      {
        PartsAre(parts[3], ',', pairs);
        FirstBadDecides(Core(parts).value, pairs, i);
      }
      OptionErrors(Core(parts).value, Split(parts[3], ','));
    }
  }

  ghost predicate FirstBadField(parts: seq<string>, i: nat)
    requires i < |parts|
  {
    !FieldOk(parts[i]) && forall j :: 0 <= j < i ==> FieldOk(parts[j])
  }

  ghost predicate FirstBadOption(pairs: seq<string>, i: nat)
    requires i < |pairs|
  {
    ParsePair(pairs[i]).Failure? && forall j :: 0 <= j < i ==> ParsePair(pairs[j]).Success?
  }

  lemma FirstBadDecides(f: Name, pairs: seq<string>, i: nat)
    requires i < |pairs| && FirstBadOption(pairs, i)
    ensures AddPairs(f, PairResults(pairs)) == Failure(ParsePair(pairs[i]).error)
  {
    var rs := PairResults(pairs);
    AddPairsSucceeds(f, rs[..i]);
    AddPairsNext(f, rs, i);
    AddPairsFails(f, rs, i + 1);
  }

  lemma {:induction false} OptionErrors(f: Name, pairs: seq<string>)
    ensures match AddPairs(f, PairResults(pairs))
      case Failure(NotAnFqbn) => false
      case Failure(EmptyBoard) => false
      case _ => true
  {
    if pairs != [] {
      var n := |pairs| - 1;
      OptionErrors(f, pairs[..n]);
      assert PairResults(pairs)[..n] == PairResults(pairs[..n]);
      ParsePairIs(pairs[n]);
    }
  }

  // ----- matching

  /** A name matches exactly the names of the same board that leave out some of its options. */
  lemma MatchesIff(f: Name, g: Name)
    requires WellFormed(f) && WellFormed(g)
    ensures Matches(f, g) <==>
      && f.vendor == g.vendor && f.architecture == g.architecture && f.board == g.board
      && exists gone: set<string> :: g.options == f.options - gone
  {
    if Matches(f, g) {
      SameCore(f, g);
      assert g.options == f.options - (f.options.Keys - g.options.Keys);
    }
  }

  predicate Matches(f: Name, target: Name) {
    && WithoutConfig(f) == WithoutConfig(target)
    && forall k :: k in target.options ==> k in f.options && f.options[k] == target.options[k]
  }

  lemma SameCore(f: Name, g: Name)
    requires WellFormed(f) && WellFormed(g) && WithoutConfig(f) == WithoutConfig(g)
    ensures f.vendor == g.vendor && f.architecture == g.architecture && f.board == g.board
  {
    var f0, g0 := f.(keys := [], options := map[]), g.(keys := [], options := map[]);
    PrintedSplits(f0);
    PrintedSplits(g0);
    assert Printed(f0) == WithoutConfig(f) && Printed(g0) == WithoutConfig(g);
    var parts := Split(WithoutConfig(f), ':');
    assert parts[0] == f.vendor == g.vendor && parts[1] == f.architecture == g.architecture && parts[2] == f.board == g.board;
  }

  /** On parsed names matching is a partial order up to the order of the options. */
  lemma MatchIsPartialOrder(f: Name, g: Name, h: Name)
    requires WellFormed(f) && WellFormed(g)
    ensures Matches(f, f)
    ensures Matches(f, g) && Matches(g, h) ==> Matches(f, h)
    ensures Matches(f, g) && Matches(g, f) ==> f.(keys := g.keys) == g && multiset(f.keys) == multiset(g.keys)
  {
    if Matches(f, g) && Matches(g, f) {
      SameCore(f, g);
      assert f.options == g.options;
      forall k ensures multiset(f.keys)[k] == multiset(g.keys)[k] {
        KeyCount(f, k);
        KeyCount(g, k);
      }
    }
  }

  lemma KeyCount(f: Name, k: string)
    requires WellFormed(f)
    ensures multiset(f.keys)[k] == if k in f.options then 1 else 0
  {
    DistinctCount(Self, f.keys, k);
    assert k in f.keys <==> k in multiset(f.keys);
  }

  // ----- the object

  class FQBN {
    var vendor: string
    var architecture: string
    var board: string
    var configs: OptionMap

    ghost predicate Valid()
      reads this, configs
    {
      configs.Valid() && configs.conv == Self
    }

    constructor (vendor: string, architecture: string, board: string, configs: OptionMap)
      ensures this.vendor == vendor && this.architecture == architecture && this.board == board
      ensures this.configs == configs
    {
      this.vendor, this.architecture, this.board, this.configs := vendor, architecture, board, configs;
    }

    function View(): (f: Name)
      reads this, configs
      ensures Valid() ==> forall k :: k in f.keys <==> k in f.options
    {
      Name(vendor, architecture, board, configs.o, configs.kv)
    }

    /** One `key=value` of the option list. */
    method AddPair(pair: string) returns (err: Option<ParseError>)
      requires Valid()
      modifies configs
      ensures Valid()
      ensures match ParsePair(pair)
        case Failure(e) => err == Some(e) && View() == old(View())
        case Success((k, v)) => err == None && View() == SetOption(old(View()), k, v)
    {
      match Cut(pair) {
        case None => return Some(InvalidOption(pair));
        case Some((rawKey, rawValue)) =>
          var k, v := TrimSpace(rawKey), TrimSpace(rawValue);
          if k == "" {
            return Some(InvalidOption(pair));
          }
          if !FieldOk(k) {
            return Some(InvalidKey(k));
          }
          if !ValueOk(v) {
            return Some(InvalidValue(v));
          }
          configs.Set(k, v);
          err := None;
      }
    }

    /** The loop over the option list. */
    method AddAllPairs(pairs: seq<string>) returns (err: Option<ParseError>)
      requires Valid()
      modifies configs
      ensures Valid()
      ensures match AddPairs(old(View()), PairResults(pairs))
        case Failure(e) => err == Some(e)
        case Success(g) => err == None && View() == g
    {
      ghost var f, rs := View(), PairResults(pairs);
      for i := 0 to |pairs|
        invariant Valid()
        invariant AddPairs(f, rs[..i]) == Success(View())
      {
        AddPairsNext(f, rs, i);
        err := AddPair(pairs[i]);
        if err.Some? {
          AddPairsFails(f, rs, i + 1);
          return;
        }
      }
      assert rs[..|pairs|] == rs;
      err := None;
    }

    /** A copy with its own option map. */
    method Clone() returns (copy: FQBN)
      requires Valid()
      ensures fresh(copy) && fresh(copy.configs) && copy.Valid() && copy.View() == View()
    {
      var configs' := configs.Clone();
      copy := new FQBN(vendor, architecture, board, configs');
    }

    method Match(target: FQBN) returns (r: bool)
      requires Valid() && target.Valid()
      ensures r == Matches(View(), target.View())
    {
      if WithoutConfig(View()) != WithoutConfig(target.View()) {
        return false;
      }
      var todo := target.configs.kv.Keys;
      while todo != {}
        invariant todo <= target.configs.kv.Keys
        invariant forall k :: k in target.configs.kv && k !in todo ==>
          k in configs.kv && configs.kv[k] == target.configs.kv[k]
        decreases |todo|
      {
        var neededKey :| neededKey in todo;
        var targetValue := configs.GetOk(neededKey);
        if targetValue != Some(target.configs.kv[neededKey]) {
          return false;
        }
        todo := todo - {neededKey};
      }
      r := true;
    }

    method String() returns (s: string)
      requires Valid()
      ensures s == Printed(View())
    {
      s := WithoutConfig(View());
      SizeIsZero();
      if configs.Size() > 0 {
        var sep := ":";
        var keys := configs.Keys();
        for i := 0 to |keys|
          invariant sep == if i == 0 then ":" else ","
          invariant s == PrintedPrefix(View(), i)
        {
          PrintOneMore(View(), i);
          s := s + (sep + keys[i] + "=" + configs.GetOk(keys[i]).value);
          sep := ",";
        }
        assert Pairs(View())[..|keys|] == Pairs(View());
      }
    }

    lemma SizeIsZero()
      requires Valid()
      ensures configs.Size() == 0 <==> configs.o == []
    {
      if configs.o == [] {
        assert configs.kv == map[];
      } else {
        assert configs.conv(configs.o[0]) in configs.kv;
      }
    }
  }

  ghost function PrintedPrefix(f: Name, i: nat): string
    requires i <= |f.keys| && forall k :: k in f.keys ==> k in f.options
  {
    WithoutConfig(f) + if i == 0 then "" else ":" + Join(Pairs(f)[..i], ',')
  }

  lemma PrintOneMore(f: Name, i: nat)
    requires i < |f.keys| && forall k :: k in f.keys ==> k in f.options
    ensures PrintedPrefix(f, i + 1)
         == PrintedPrefix(f, i) + ((if i == 0 then ":" else ",") + f.keys[i] + "=" + f.options[f.keys[i]])
  {
    var pairs := Pairs(f);
    assert pairs[..i + 1] == pairs[..i] + [pairs[i]];
    JoinSnoc(pairs[..i], pairs[i], ',');
  }

  /** Parse builds the object option by option; it accepts and rejects exactly as the grammar
      says. */
  method Parse(fqbnIn: string) returns (r: Result<FQBN, ParseError>)
    ensures r.Success? <==> Parsed(fqbnIn).Success?
    ensures r.Failure? ==> r.error == Parsed(fqbnIn).error
    ensures r.Success? ==> fresh(r.value) && fresh(r.value.configs) && r.value.Valid() && r.value.View() == Parsed(fqbnIn).value
  {
    var parts := Split(fqbnIn, ':');
    if |parts| < 3 || |parts| > 4 {
      return Failure(NotAnFqbn);
    }
    var configs := new Map<string, string, string>(Self);
    var fqbn := new FQBN(parts[0], parts[1], parts[2], configs);
    if fqbn.board == "" {
      return Failure(EmptyBoard);
    }
    for i := 0 to 3
      invariant forall j :: 0 <= j < i ==> FieldOk(parts[j])
    {
      if !FieldOk(parts[i]) {
        return Failure(InvalidField(parts[i]));
      }
    }
    if |parts| > 3 {
      var err := fqbn.AddAllPairs(Split(parts[3], ','));
      if err.Some? {
        return Failure(err.value);
      }
    }
    r := Success(fqbn);
  }

  lemma AddPairsNext(f: Name, rs: seq<PairResult>, i: nat)
    requires i < |rs| && AddPairs(f, rs[..i]).Success?
    ensures AddPairs(f, rs[..i + 1]) == match rs[i]
      case Failure(e) => Failure(e)
      case Success((k, v)) => Success(SetOption(AddPairs(f, rs[..i]).value, k, v))
  {
    assert rs[..i + 1][..i] == rs[..i];
  }

  /** The first option that does not parse decides the error. */
  lemma {:induction false} AddPairsFails(f: Name, rs: seq<PairResult>, n: nat)
    requires n <= |rs| && AddPairs(f, rs[..n]).Failure?
    ensures AddPairs(f, rs) == AddPairs(f, rs[..n])
  {
    if n < |rs| {
      assert rs[..|rs| - 1][..n] == rs[..n];
      AddPairsFails(f, rs[..|rs| - 1], n);
    } else {
      assert rs[..n] == rs;
    }
  }
}
