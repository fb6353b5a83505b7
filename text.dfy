/** Python `str` operations the crash-report engine relies on, stated on `seq<char>`. */
module Text {

  datatype Option<T> = None | Some(value: T)

  /** Python's `str.isspace()` for one character; also what `\s` matches in a `str` regex. */
  predicate IsSpace(c: char) {
    || c == ' '
    || ('\t' <= c <= '\r')
    || ('\U{1c}' <= c <= '\U{1f}')
    || c == '\U{85}' || c == '\U{a0}' || c == '\U{1680}'
    || ('\U{2000}' <= c <= '\U{200a}')
    || c == '\U{2028}' || c == '\U{2029}' || c == '\U{202f}' || c == '\U{205f}' || c == '\U{3000}'
  }

  predicate NoSpace(s: string) {
    forall i :: 0 <= i < |s| ==> !IsSpace(s[i])
  }

  predicate StartsWith(s: string, prefix: string) {
    |prefix| <= |s| && s[..|prefix|] == prefix
  }

  /** `sub` occurs in `s` at index `i`. */
  predicate IsAt(s: string, sub: string, i: nat) {
    i + |sub| <= |s| && s[i..i + |sub|] == sub
  }

  /** Python's normalisation of a `start` argument: negative values count from the end, clamped at 0. */
  function PyStart(n: nat, start: int): nat {
    if start >= 0 then start else if start + n >= 0 then start + n else 0
  }

  function FindFrom(s: string, sub: string, i: nat): (r: int)
    ensures r == -1 || (i <= r && IsAt(s, sub, r))
    ensures r == -1 ==> forall j: nat :: i <= j ==> !IsAt(s, sub, j)
    ensures r != -1 ==> forall j: nat :: i <= j < r ==> !IsAt(s, sub, j)
    decreases |s| - i
  {
    if i + |sub| > |s| then -1
    else if IsAt(s, sub, i) then i
    else FindFrom(s, sub, i + 1)
  }

  /** Python's `s.find(sub, start)`: the lowest occurrence at or after the normalised start, or -1. */
  function Find(s: string, sub: string, start: int): (r: int)
    ensures r == -1 || (PyStart(|s|, start) <= r && IsAt(s, sub, r))
    ensures r == -1 ==> forall j: nat :: PyStart(|s|, start) <= j ==> !IsAt(s, sub, j)
    ensures r != -1 ==> forall j: nat :: PyStart(|s|, start) <= j < r ==> !IsAt(s, sub, j)
  {
    FindFrom(s, sub, PyStart(|s|, start))
  }

  /** Python's `sub in s`. */
  predicate Contains(s: string, sub: string)
    ensures Contains(s, sub) <==> exists i: nat :: IsAt(s, sub, i)
  {
    FindFrom(s, sub, 0) != -1
  }

  /** An occurrence found by `Find` from its own position is found again there: a `find` restarted
      at a match never advances. */
  lemma FindAtMatch(s: string, sub: string, i: nat)
    requires IsAt(s, sub, i)
    ensures Find(s, sub, i) == i
  {
  }

  /** The index of the first `c` in `s`, or `|s|` when there is none. */
  function IndexOfChar(s: string, c: char): (k: nat)
    ensures k <= |s|
    ensures k < |s| ==> s[k] == c
    ensures forall j :: 0 <= j < k ==> s[j] != c
  {
    if s == [] then 0
    else if s[0] == c then 0
    else 1 + IndexOfChar(s[1..], c)
  }

  function TrimStart(s: string): (r: string)
    ensures |r| <= |s|
  {
    if s != [] && IsSpace(s[0]) then TrimStart(s[1..]) else s
  }

  function TrimEnd(s: string): (r: string)
    ensures |r| <= |s|
  {
    if s != [] && IsSpace(s[|s| - 1]) then TrimEnd(s[..|s| - 1]) else s
  }

  /** `TrimStart` drops exactly the leading whitespace. */
  lemma {:induction false} TrimStartSpec(s: string)
    ensures var r := TrimStart(s); |r| <= |s| && r == s[|s| - |r|..]
    ensures var r := TrimStart(s); forall k :: 0 <= k < |s| - |r| ==> IsSpace(s[k])
    ensures var r := TrimStart(s); r == [] || !IsSpace(r[0])
  {
    if s != [] && IsSpace(s[0]) {
      TrimStartSpec(s[1..]);
    }
  }

  /** `TrimStart` keeps a suffix. */
  lemma {:induction false} TrimStartSuffix(s: string)
    ensures TrimStart(s) == s[|s| - |TrimStart(s)|..]
  {
    if s != [] && IsSpace(s[0]) {
      TrimStartSuffix(s[1..]);
    }
  }

  /** `TrimEnd` keeps a prefix. */
  lemma {:induction false} TrimEndPrefix(s: string)
    ensures TrimEnd(s) == s[..|TrimEnd(s)|]
  {
    if s != [] && IsSpace(s[|s| - 1]) {
      TrimEndPrefix(s[..|s| - 1]);
    }
  }

  /** `TrimEnd` drops exactly the trailing whitespace. */
  lemma {:induction false} TrimEndSpec(s: string)
    ensures var r := TrimEnd(s); |r| <= |s| && r == s[..|r|]
    ensures var r := TrimEnd(s); forall k :: |r| <= k < |s| ==> IsSpace(s[k])
    ensures var r := TrimEnd(s); r == [] || !IsSpace(r[|r| - 1])
  {
    if s != [] && IsSpace(s[|s| - 1]) {
      TrimEndSpec(s[..|s| - 1]);
    }
  }

  /** Python's `s.strip()` with no argument. */
  function Strip(s: string): (r: string)
  {
    TrimEnd(TrimStart(s))
  }

  /** `Strip(s)` is the slice of `s` that starts after its leading whitespace. */
  lemma StripSlice(s: string)
    ensures var a, r := |s| - |TrimStart(s)|, Strip(s); a + |r| <= |s| && r == s[a..a + |r|]
  {
    var t := TrimStart(s);
    var r := TrimEnd(t);
    var a := |s| - |t|;
    TrimStartSuffix(s);
    TrimEndPrefix(t);
    assert Strip(s) == r;
    assert s[a..][..|r|] == s[a..a + |r|];
  }

  /** What `Strip` cuts off after the slice is whitespace. */
  lemma StripRight(s: string)
    ensures var a, r := |s| - |TrimStart(s)|, Strip(s); forall k :: a + |r| <= k < |s| ==> IsSpace(s[k])
  {
    var t := TrimStart(s);
    var r := TrimEnd(t);
    var a := |s| - |t|;
    TrimStartSpec(s);
    TrimEndSpec(t);
    assert t == s[a..];
    forall k | a + |r| <= k < |s| ensures IsSpace(s[k]) {
      assert s[k] == t[k - a];
    }
  }

  /** `Strip(s)` neither starts nor ends with whitespace. */
  lemma StripEnds(s: string)
    ensures var r := Strip(s); r == [] || (!IsSpace(r[0]) && !IsSpace(r[|r| - 1]))
  {
    var t := TrimStart(s);
    var r := TrimEnd(t);
    TrimStartSpec(s);
    TrimEndSpec(t);
    if r != [] {
      assert t != [] && r[0] == t[0];
    }
  }

  /** `Strip` removes exactly the leading and trailing whitespace: the result is the slice of `s`
      that starts after the leading whitespace, has non-space ends, and everything cut off on
      either side is whitespace. */
  lemma StripSpec(s: string)
    ensures var a, r := |s| - |TrimStart(s)|, Strip(s);
      && a + |r| <= |s| && r == s[a..a + |r|]
      && (forall k :: 0 <= k < a ==> IsSpace(s[k]))
      && (forall k :: a + |r| <= k < |s| ==> IsSpace(s[k]))
      && (r == [] || (!IsSpace(r[0]) && !IsSpace(r[|r| - 1])))
  {
    StripSlice(s);
    StripRight(s);
    StripEnds(s);
  }

  /** A string without surrounding whitespace is left alone by `Strip`. */
  lemma StripKeeps(r: string)
    requires r == [] || (!IsSpace(r[0]) && !IsSpace(r[|r| - 1]))
    ensures Strip(r) == r
  {
    assert TrimStart(r) == r;
  }

  /** Every character of `Strip(s)` is a character of `s`. */
  lemma StripChars(s: string, c: char)
    requires c in Strip(s)
    ensures c in s
  {
    StripSpec(s);
  }

  /** Python's `s.splitlines()`, where the only line break is '\n'. */
  function SplitLines(s: string): (r: seq<string>)
    ensures forall i :: 0 <= i < |r| ==> '\n' !in r[i]
    decreases |s|
  {
    if s == [] then []
    else
      var k := IndexOfChar(s, '\n');
      if k == |s| then [s] else [s[..k]] + SplitLines(s[k + 1..])
  }

  /** `sep.join(parts)`. */
  function Join(parts: seq<string>, sep: string): string {
    if parts == [] then ""
    else if |parts| == 1 then parts[0]
    else parts[0] + sep + Join(parts[1..], sep)
  }

  /** Joining non-empty lines with '\n' and splitting the text again gives the lines back. */
  lemma {:induction false} SplitJoin(lines: seq<string>)
    requires forall i :: 0 <= i < |lines| ==> lines[i] != "" && '\n' !in lines[i]
    ensures SplitLines(Join(lines, "\n")) == lines
  {
    if |lines| == 1 {
      var x := lines[0];
      assert forall j :: 0 <= j < |x| ==> x[j] != '\n';
    } else if |lines| > 1 {
      var x := lines[0];
      var s := Join(lines, "\n");
      assert s == x + "\n" + Join(lines[1..], "\n");
      var k := IndexOfChar(s, '\n');
      assert s[|x|] == '\n';
      assert forall j :: 0 <= j < |x| ==> s[j] == x[j] && x[j] != '\n';
      assert s[..k] == x;
      assert s[k + 1..] == Join(lines[1..], "\n");
      SplitJoin(lines[1..]);
    }
  }

  function LowerChar(c: char): char {
    if 'A' <= c <= 'Z' then (c as int + 32) as char else c
  }

  /** `s.lower()` on ASCII letters. */
  function Lower(s: string): (r: string)
    ensures |r| == |s|
  {
    if s == [] then [] else [LowerChar(s[0])] + Lower(s[1..])
  }

  /** `s.split()[0]`: the first maximal run of non-whitespace, or `None` (Python's IndexError)
      when `s` holds only whitespace. */
  function FirstToken(s: string): Option<string> {
    var t := TrimStart(s);
    if t == [] then None else Some(t[..TokenEnd(t)])
  }

  /** The length of the leading run of non-whitespace. */
  function TokenEnd(t: string): (k: nat)
    ensures k <= |t|
  {
    if t == [] || IsSpace(t[0]) then 0 else 1 + TokenEnd(t[1..])
  }

  lemma {:induction false} TokenEndSpec(t: string)
    ensures var k := TokenEnd(t); k <= |t| && (k < |t| ==> IsSpace(t[k]))
    ensures forall j :: 0 <= j < TokenEnd(t) ==> !IsSpace(t[j])
  {
    if t != [] && !IsSpace(t[0]) {
      TokenEndSpec(t[1..]);
    }
  }

  /** The first token is missing exactly for a blank string; otherwise it is a non-empty run
      without whitespace, preceded only by whitespace and followed by whitespace or the end. */
  lemma FirstTokenSpec(s: string)
    ensures FirstToken(s).None? <==> forall i :: 0 <= i < |s| ==> IsSpace(s[i])
    ensures FirstToken(s).Some? ==> var v := FirstToken(s).value;
      && v != [] && NoSpace(v)
      && exists a: nat :: (IsAt(s, v, a)
           && (forall k :: 0 <= k < a ==> IsSpace(s[k]))
           && (a + |v| == |s| || IsSpace(s[a + |v|])))
  {
    var t := TrimStart(s);
    TrimStartSpec(s);
    var a := |s| - |t|;
    if t != [] {
      var k := TokenEnd(t);
      TokenEndSpec(t);
      assert t[0] == s[a];
      assert k > 0;
      assert IsAt(s, t[..k], a);
      assert a + k == |s| || s[a + k] == t[k];
    }
  }

  /** Leading whitespace drops away before a string that does not start with whitespace. */
  lemma {:induction false} TrimLead(lead: string, x: string)
    requires forall k :: 0 <= k < |lead| ==> IsSpace(lead[k])
    requires x == [] || !IsSpace(x[0])
    ensures TrimStart(lead + x) == x
  {
    if lead != [] {
      assert (lead + x)[0] == lead[0];
      assert (lead + x)[1..] == lead[1..] + x;
      TrimLead(lead[1..], x);
    }
  }

  /** A token followed by whitespace or the end is one run. */
  lemma {:induction false} TokenEndOf(token: string, rest: string)
    requires NoSpace(token) && (rest == [] || IsSpace(rest[0]))
    ensures TokenEnd(token + rest) == |token|
  {
    if token != [] {
      assert (token + rest)[0] == token[0];
      assert (token + rest)[1..] == token[1..] + rest;
      TokenEndOf(token[1..], rest);
    }
  }

  /** Leading whitespace, a token, and whitespace or the end: the first token is that token. */
  lemma FirstTokenOf(lead: string, token: string, rest: string)
    requires forall k :: 0 <= k < |lead| ==> IsSpace(lead[k])
    requires token != [] && NoSpace(token) && (rest == [] || IsSpace(rest[0]))
    ensures FirstToken(lead + token + rest) == Some(token)
  {
    assert lead + token + rest == lead + (token + rest);
    assert (token + rest)[0] == token[0];
    TrimLead(lead, token + rest);
    TokenEndOf(token, rest);
    assert (token + rest)[..|token|] == token;
  }

  function DigitChar(d: nat): char
    requires d < 10
  {
    "0123456789"[d]
  }

  /** Python's `str(n)` for a natural number. */
  function Decimal(n: nat): (r: string)
    ensures r != []
    ensures forall i :: 0 <= i < |r| ==> '0' <= r[i] <= '9'
    ensures n > 0 ==> r[0] != '0'
    ensures |r| > 1 ==> r[0] != '0'
  {
    if n < 10 then [DigitChar(n)] else Decimal(n / 10) + [DigitChar(n % 10)]
  }

  function DecimalValue(s: string): int
  {
    if s == [] then 0 else 10 * DecimalValue(s[..|s| - 1]) + (s[|s| - 1] as int - '0' as int)
  }

  /** Reading back the decimal digits gives the number. */
  lemma {:induction false} DecimalRoundTrip(n: nat)
    ensures DecimalValue(Decimal(n)) == n
  {
    if n >= 10 {
      var r := Decimal(n);
      assert r[..|r| - 1] == Decimal(n / 10);
      DecimalRoundTrip(n / 10);
    }
  }

  /** Appending in two steps appends the two parts. */
  lemma AppendTwice<T>(a: seq<T>, b: seq<T>, c: seq<T>)
    ensures (a + b) + c == a + (b + c)
  {
  }
}
