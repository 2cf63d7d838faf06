/** The tokenizer of library-search queries: spaces separate tokens, double quotes protect
    spaces, a backslash protects the next character. */
module QueryTokens {
  import opened Strings

  /** unicode.ToLower, applied rune by rune. */
  type Lower = char -> char

  function ToLower(lower: Lower, s: string): (r: string)
    ensures |r| == |s|
  {
    seq(|s|, i requires 0 <= i < |s| => lower(s[i]))
  }

  datatype Scan = Scan(escaped: bool, quoted: bool, buffer: string, tokens: seq<string>)

  const START := Scan(false, false, "", [])

  function Feed(lower: Lower, s: Scan, r: char): Scan {
    if !s.escaped && r == '\\' then s.(escaped := true)
    else
      var t := s.(escaped := false);
      if r == '"' then (if s.escaped then t.(buffer := s.buffer + [r]) else t.(quoted := !s.quoted))
      else if !s.quoted && r == ' ' then t.(tokens := s.tokens + [ToLower(lower, s.buffer)], buffer := "")
      else t.(buffer := s.buffer + [r])
  }

  function Run(lower: Lower, s: Scan, query: string): Scan
    decreases |query|
  {
    if query == "" then s else Run(lower, Feed(lower, s, query[0]), query[1..])
  }

  function Tokens(lower: Lower, query: string): seq<string> {
    var s := Run(lower, START, query);
    if s.buffer != "" then s.tokens + [ToLower(lower, s.buffer)] else s.tokens
  }

  method MatcherTokensFromQueryString(lower: Lower, query: string) returns (tokens: seq<string>)
    ensures tokens == Tokens(lower, query)
  {
    var escaped, quoted, sb := false, false, "";
    tokens := [];
    for i := 0 to |query|
      invariant Run(lower, START, query) == Run(lower, Scan(escaped, quoted, sb, tokens), query[i..])
    {
      var r := query[i];
      assert query[i..][1..] == query[i + 1..];
      if !escaped && r == '\\' {
        escaped := true;
        continue;
      }
      if r == '"' {
        if !escaped {
          quoted := !quoted;
        } else {
          sb := sb + [r];
        }
      } else if !quoted && r == ' ' {
        tokens := tokens + [ToLower(lower, sb)];
        sb := "";
      } else {
        sb := sb + [r];
      }
      escaped := false;
    }
    if |sb| > 0 {
      tokens := tokens + [ToLower(lower, sb)];
    }
  }

  // ----- a printer the tokenizer inverts

  function Escape(t: string): string {
    if t == "" then ""
    else (if t[0] == '\\' || t[0] == '"' then ['\\', t[0]] else [t[0]]) + Escape(t[1..])
  }

  function Quote(t: string): string {
    "\"" + Escape(t) + "\""
  }

  function Quoted(ts: seq<string>): (r: seq<string>)
    ensures |r| == |ts|
  {
    seq(|ts|, i requires 0 <= i < |ts| => Quote(ts[i]))
  }

  function Query(ts: seq<string>): string {
    Join(Quoted(ts), ' ')
  }

  lemma {:induction false} RunConcat(lower: Lower, s: Scan, a: string, b: string)
    ensures Run(lower, s, a + b) == Run(lower, Run(lower, s, a), b)
    decreases |a|
  {
    if a == "" {
      assert a + b == b;
    } else {
      RunConcat(lower, Feed(lower, s, a[0]), a[1..], b);
      assert (a + b)[1..] == a[1..] + b;
    }
  }

  lemma RunOne(lower: Lower, s: Scan, c: char)
    ensures Run(lower, s, [c]) == Feed(lower, s, c)
  {
    assert [c][1..] == "";
  }

  lemma {:induction false} RunEscape(lower: Lower, s: Scan, t: string)
    requires !s.escaped && s.quoted
    ensures Run(lower, s, Escape(t)) == s.(buffer := s.buffer + t)
    decreases |t|
  {
    if t == "" {
      assert s.buffer + t == s.buffer;
    } else {
      var head := if t[0] == '\\' || t[0] == '"' then ['\\', t[0]] else [t[0]];
      RunConcat(lower, s, head, Escape(t[1..]));
      RunHead(lower, s, t[0]);
      RunEscape(lower, s.(buffer := s.buffer + [t[0]]), t[1..]);
      assert s.buffer + [t[0]] + t[1..] == s.buffer + t;
    }
  }

  lemma RunHead(lower: Lower, s: Scan, c: char)
    requires !s.escaped && s.quoted
    ensures Run(lower, s, if c == '\\' || c == '"' then ['\\', c] else [c]) == s.(buffer := s.buffer + [c])
  {
    if c == '\\' || c == '"' {
      assert ['\\', c] == ['\\'] + [c];
      RunConcat(lower, s, ['\\'], [c]);
      RunOne(lower, s, '\\');
      RunOne(lower, s.(escaped := true), c);
    } else {
      RunOne(lower, s, c);
    }
  }

  lemma RunQuote(lower: Lower, s: Scan, t: string)
    requires !s.escaped && !s.quoted
    ensures Run(lower, s, Quote(t)) == s.(buffer := s.buffer + t)
  {
    RunConcat(lower, s, "\"" + Escape(t), "\"");
    RunConcat(lower, s, "\"", Escape(t));
    RunOne(lower, s, '"');
    RunEscape(lower, s.(quoted := true), t);
    RunOne(lower, s.(quoted := true, buffer := s.buffer + t), '"');
  }

  function AllLower(lower: Lower, ts: seq<string>): (r: seq<string>)
    ensures |r| == |ts|
  {
    seq(|ts|, i requires 0 <= i < |ts| => ToLower(lower, ts[i]))
  }

  lemma {:induction false} RunQuery(lower: Lower, s: Scan, ts: seq<string>)
    requires !s.escaped && !s.quoted && s.buffer == "" && ts != []
    ensures Run(lower, s, Query(ts))
         == s.(buffer := ts[|ts| - 1], tokens := s.tokens + AllLower(lower, ts[..|ts| - 1]))
    decreases |ts|
  {
    RunQuote(lower, s, ts[0]);
    assert s.buffer + ts[0] == ts[0];
    if |ts| > 1 {
      var s1 := s.(buffer := ts[0]);
      var s2 := s.(tokens := s.tokens + [ToLower(lower, ts[0])]);
      assert Quoted(ts)[1..] == Quoted(ts[1..]);
      RunConcat(lower, s, Quote(ts[0]) + [' '], Query(ts[1..]));
      RunConcat(lower, s, Quote(ts[0]), [' ']);
      RunOne(lower, s1, ' ');
      RunQuery(lower, s2, ts[1..]);
      assert Query(ts) == Quote(ts[0]) + [' '] + Query(ts[1..]);
      assert ts[1..][|ts[1..]| - 1] == ts[|ts| - 1];
      assert s2.tokens + AllLower(lower, ts[1..][..|ts[1..]| - 1]) == s.tokens + AllLower(lower, ts[..|ts| - 1]);
    } else {
      assert s.tokens + AllLower(lower, ts[..0]) == s.tokens;
    }
  }

  /** Tokenizing a printed list gives the lowercased list, without its last token if that is
      empty: an empty last token cannot be written. */
  lemma TokenizePrinted(lower: Lower, ts: seq<string>)
    ensures Tokens(lower, Query(ts))
         == AllLower(lower, if ts != [] && ts[|ts| - 1] == "" then ts[..|ts| - 1] else ts)
  {
    if ts != [] {
      var n := |ts| - 1;
      RunQuery(lower, START, ts);
      assert AllLower(lower, ts) == AllLower(lower, ts[..n]) + [ToLower(lower, ts[n])];
      assert [] + AllLower(lower, ts[..n]) == AllLower(lower, ts[..n]);
    }
  }

  /** On lists of lowercase tokens the tokenizer inverts the printer exactly when the last
      token is not empty. */
  lemma TokenizeInvertsPrint(lower: Lower, ts: seq<string>)
    requires forall i, c :: 0 <= i < |ts| && c in ts[i] ==> lower(c) == c
    ensures Tokens(lower, Query(ts)) == ts <==> (ts != [] ==> ts[|ts| - 1] != "")
  {
    TokenizePrinted(lower, ts);
    forall i | 0 <= i < |ts| ensures ToLower(lower, ts[i]) == ts[i] {}
    assert AllLower(lower, ts) == ts;
    if ts != [] {
      assert |AllLower(lower, ts[..|ts| - 1])| == |ts| - 1;
    }
  }

  // ----- how many tokens there are, read off the query alone

  predicate EscapedAt(q: string, i: nat)
    requires i <= |q|
  {
    i > 0 && q[i - 1] == '\\' && !EscapedAt(q, i - 1)
  }

  predicate QuotedAt(q: string, i: nat)
    requires i <= |q|
  {
    i > 0 && (QuotedAt(q, i - 1) != (q[i - 1] == '"' && !EscapedAt(q, i - 1)))
  }

  /** A space outside quotes. */
  predicate SplitsAt(q: string, i: nat)
    requires i < |q|
  {
    q[i] == ' ' && !QuotedAt(q, i)
  }

  /** A character that ends up in a token. */
  predicate WrittenAt(q: string, i: nat)
    requires i < |q|
  {
    !SplitsAt(q, i) && ((q[i] == '\\' || q[i] == '"') ==> EscapedAt(q, i))
  }

  function Splits(q: string, n: nat): nat
    requires n <= |q|
  {
    if n == 0 then 0 else Splits(q, n - 1) + if SplitsAt(q, n - 1) then 1 else 0
  }

  ghost predicate Pending(q: string, n: nat)
    requires n <= |q|
  {
    exists i :: 0 <= i < n && WrittenAt(q, i) && forall j :: i < j < n ==> !SplitsAt(q, j)
  }

  lemma {:induction false} ScanOfPrefix(lower: Lower, q: string, n: nat)
    requires n <= |q|
    ensures var s := Run(lower, START, q[..n]);
      && s.escaped == EscapedAt(q, n) && s.quoted == QuotedAt(q, n)
      && |s.tokens| == Splits(q, n)
      && (s.buffer != "" <==> Pending(q, n))
  {
    if n > 0 {
      ScanOfPrefix(lower, q, n - 1);
      var s := Run(lower, START, q[..n - 1]);
      assert q[..n] == q[..n - 1] + [q[n - 1]];
      RunConcat(lower, START, q[..n - 1], [q[n - 1]]);
      RunOne(lower, s, q[n - 1]);
      PendingStep(q, n);
    }
  }

  lemma PendingStep(q: string, n: nat)
    requires 0 < n <= |q|
    ensures Pending(q, n) <==> WrittenAt(q, n - 1) || (Pending(q, n - 1) && !SplitsAt(q, n - 1))
  {
    if Pending(q, n - 1) && !SplitsAt(q, n - 1) {
      var i :| 0 <= i < n - 1 && WrittenAt(q, i) && forall j :: i < j < n - 1 ==> !SplitsAt(q, j);
      assert forall j :: i < j < n ==> !SplitsAt(q, j);
    }
    if Pending(q, n) && !WrittenAt(q, n - 1) {
      var i :| 0 <= i < n && WrittenAt(q, i) && forall j :: i < j < n ==> !SplitsAt(q, j);
      assert i < n - 1;
      assert !SplitsAt(q, n - 1);
    }
  }

  /** For every query: one token for each space outside quotes, and one more exactly when a
      character was written after the last of them. */
  lemma TokenCount(lower: Lower, q: string)
    ensures |Tokens(lower, q)| == Splits(q, |q|) + if Pending(q, |q|) then 1 else 0
  {
    ScanOfPrefix(lower, q, |q|);
    assert q[..|q|] == q;
  }

  // ----- what the tokens are, read off the query alone

  /** Where the token that position `n` is in begins: behind the last space outside quotes. */
  function TokenStart(q: string, n: nat): (i: nat)
    requires n <= |q|
    ensures i <= n
  {
    if n == 0 then 0 else if SplitsAt(q, n - 1) then n else TokenStart(q, n - 1)
  }

  /** The written characters between two positions, in order. */
  function WrittenText(q: string, i: nat, n: nat): string
    requires i <= n <= |q|
  {
    if i == n then "" else WrittenText(q, i, n - 1) + if WrittenAt(q, n - 1) then [q[n - 1]] else ""
  }

  /** The texts of the tokens that end before position `n`. */
  function Texts(q: string, n: nat): seq<string>
    requires n <= |q|
  {
    if n == 0 then []
    else if SplitsAt(q, n - 1) then Texts(q, n - 1) + [WrittenText(q, TokenStart(q, n - 1), n - 1)]
    else Texts(q, n - 1)
  }

  lemma {:induction false} TextsOfPrefix(lower: Lower, q: string, n: nat)
    requires n <= |q|
    ensures var s := Run(lower, START, q[..n]);
      s.buffer == WrittenText(q, TokenStart(q, n), n) && s.tokens == AllLower(lower, Texts(q, n))
  {
    if n > 0 {
      TextsOfPrefix(lower, q, n - 1);
      ScanOfPrefix(lower, q, n - 1);
      var s := Run(lower, START, q[..n - 1]);
      assert q[..n] == q[..n - 1] + [q[n - 1]];
      RunConcat(lower, START, q[..n - 1], [q[n - 1]]);
      RunOne(lower, s, q[n - 1]);
      if SplitsAt(q, n - 1) {
        AllLowerSnoc(lower, Texts(q, n - 1), s.buffer);
      }
    }
  }

  /** For every query: the tokens are the lowercased texts between the spaces outside quotes, without
      the quotes and the backslashes that are not escaped; the last one only if it is not empty. */
  lemma TokensAre(lower: Lower, q: string)
    ensures var n := |q|;
      var last := WrittenText(q, TokenStart(q, n), n);
      Tokens(lower, q) == AllLower(lower, Texts(q, n) + if last == "" then [] else [last])
  {
    var n := |q|;
    TextsOfPrefix(lower, q, n);
    assert q[..n] == q;
    var last := WrittenText(q, TokenStart(q, n), n);
    AllLowerSnoc(lower, Texts(q, n), last);
    assert Texts(q, n) + [] == Texts(q, n);
  }

  lemma AllLowerSnoc(lower: Lower, ts: seq<string>, t: string)
    ensures AllLower(lower, ts + [t]) == AllLower(lower, ts) + [ToLower(lower, t)]
  {}

  // ----- words without special characters

  ghost predicate Plain(w: string) {
    ' ' !in w && '"' !in w && '\\' !in w
  }

  lemma {:induction false} RunPlain(lower: Lower, s: Scan, w: string)
    requires !s.escaped && !s.quoted && Plain(w)
    ensures Run(lower, s, w) == s.(buffer := s.buffer + w)
    decreases |w|
  {
    if w == "" {
      assert s.buffer + w == s.buffer;
    } else {
      RunPlain(lower, s.(buffer := s.buffer + [w[0]]), w[1..]);
      assert s.buffer + [w[0]] + w[1..] == s.buffer + w;
    }
  }

  lemma {:induction false} RunWords(lower: Lower, s: Scan, ws: seq<string>)
    requires !s.escaped && !s.quoted && s.buffer == "" && ws != [] && forall w :: w in ws ==> Plain(w)
    ensures Run(lower, s, Join(ws, ' '))
         == s.(buffer := ws[|ws| - 1], tokens := s.tokens + AllLower(lower, ws[..|ws| - 1]))
    decreases |ws|
  {
    RunPlain(lower, s, ws[0]);
    assert s.buffer + ws[0] == ws[0];
    if |ws| > 1 {
      var s1 := s.(buffer := ws[0]);
      var s2 := s.(tokens := s.tokens + [ToLower(lower, ws[0])]);
      RunConcat(lower, s, ws[0] + [' '], Join(ws[1..], ' '));
      RunConcat(lower, s, ws[0], [' ']);
      RunOne(lower, s1, ' ');
      RunWords(lower, s2, ws[1..]);
      assert ws[1..][|ws[1..]| - 1] == ws[|ws| - 1];
      assert s2.tokens + AllLower(lower, ws[1..][..|ws[1..]| - 1]) == s.tokens + AllLower(lower, ws[..|ws| - 1]);
    } else {
      assert s.tokens + AllLower(lower, ws[..0]) == s.tokens;
    }
  }

  /** Words without special characters, with spaces between them, become the tokens: each word in its
      place, lowercased letter by letter. */
  lemma PlainWords(lower: Lower, ws: seq<string>)
    requires ws != [] && ws[|ws| - 1] != "" && forall w :: w in ws ==> Plain(w)
    ensures var r := Tokens(lower, Join(ws, ' '));
      && |r| == |ws|
      && forall i :: 0 <= i < |ws| ==> |r[i]| == |ws[i]| && forall j :: 0 <= j < |ws[i]| ==> r[i][j] == lower(ws[i][j])
  {
    RunWords(lower, START, ws);
  }
}
