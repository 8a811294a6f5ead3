/**
 * The string operations the renderer takes from Rust's standard library and
 * from the `htmlescape` crate: whitespace and trimming, prefixes and
 * suffixes, joining, `str::lines`, decimal formatting of integers and
 * `encode_minimal`.
 */
module Strings {

  /** Rust's `char::is_whitespace`: the Unicode White_Space property. */
  predicate IsWhitespace(c: char) {
    ('\t' <= c <= '\r') || c == ' ' || c == '\U{85}' || c == '\U{A0}' || c == '\U{1680}'
    || ('\U{2000}' <= c <= '\U{200A}') || c == '\U{2028}' || c == '\U{2029}'
    || c == '\U{202F}' || c == '\U{205F}' || c == '\U{3000}'
  }

  /** Every character of `s` is whitespace. */
  predicate IsBlank(s: string) {
    forall i :: 0 <= i < |s| ==> IsWhitespace(s[i])
  }

  /** `str::trim_start`: drops the leading whitespace. */
  function TrimStart(s: string): (r: string)
    ensures |r| <= |s| && r == s[|s| - |r|..]
    ensures r == [] || !IsWhitespace(r[0])
    ensures IsBlank(s[..|s| - |r|])
  {
    if s != [] && IsWhitespace(s[0]) then
      var t := s[1..];
      var r := TrimStart(t);
      var k := |s| - |r|;
      assert s[k..] == t[k - 1..];
      assert IsBlank(s[..k]) by {
        forall i | 0 <= i < k ensures IsWhitespace(s[..k][i]) {
          if i > 0 {
            assert s[..k][i] == t[..k - 1][i - 1];
          }
        }
      }
      r
    else s
  }

  /** `str::trim_end`: drops the trailing whitespace. */
  function TrimEnd(s: string): (r: string)
    ensures |r| <= |s| && r == s[..|r|]
    ensures r == [] || !IsWhitespace(r[|r| - 1])
    ensures IsBlank(s[|r|..])
  {
    if s != [] && IsWhitespace(s[|s| - 1]) then
      var r := TrimEnd(s[..|s| - 1]);
      assert s[|r|..] == s[..|s| - 1][|r|..] + [s[|s| - 1]];
      r
    else s
  }

  /** `str::trim`: drops whitespace at both ends. */
  function Trim(s: string): string {
    TrimEnd(TrimStart(s))
  }

  /** `s.trim().is_empty()` holds exactly when `s` is all whitespace. */
  lemma TrimEmptyIffBlank(s: string)
    ensures Trim(s) == [] <==> IsBlank(s)
  {
    var t := TrimStart(s);
    if Trim(s) == [] {
      assert s == s[..|s| - |t|] + t;
      assert IsBlank(t[0..]);
    } else {
      var r := Trim(s);
      assert r[0] == t[0];
      assert !IsWhitespace(s[|s| - |t|]);
    }
  }

  predicate StartsWith(s: string, prefix: string) {
    |prefix| <= |s| && s[..|prefix|] == prefix
  }

  predicate EndsWith(s: string, suffix: string) {
    |suffix| <= |s| && s[|s| - |suffix|..] == suffix
  }

  /** Text that starts with `p` still does after more is appended. */
  lemma StartsWithAppend(s: string, t: string, p: string)
    requires StartsWith(s, p)
    ensures StartsWith(s + t, p)
  {
    assert (s + t)[..|p|] == s[..|p|];
  }

  /** Text ends with whatever was appended last. */
  lemma EndsWithAppended(s: string, t: string)
    ensures EndsWith(s + t, t) && StartsWith(s + t, s)
  {
    assert (s + t)[|s + t| - |t|..] == t;
    assert (s + t)[..|s|] == s;
  }

  /** `concat` / `collect::<String>()` of a sequence of strings. */
  function Concat(parts: seq<string>): (r: string)
  {
    if parts == [] then [] else parts[0] + Concat(parts[1..])
  }

  lemma {:induction false} ConcatAppend(a: seq<string>, b: seq<string>)
    ensures Concat(a + b) == Concat(a) + Concat(b)
  {
    if a == [] {
      assert a + b == b;
    } else {
      assert (a + b)[1..] == a[1..] + b;
      ConcatAppend(a[1..], b);
    }
  }

  /** The concatenation is empty exactly when every part is. */
  lemma {:induction false} ConcatEmptyIff(parts: seq<string>)
    ensures Concat(parts) == [] <==> forall k :: 0 <= k < |parts| ==> parts[k] == []
  {
    if parts != [] {
      ConcatEmptyIff(parts[1..]);
      assert forall k :: 1 <= k < |parts| ==> parts[k] == parts[1..][k - 1];
    }
  }

  /** `join(sep)`: the parts with `sep` between consecutive ones. */
  function Join(parts: seq<string>, sep: string): (r: string)
  {
    if parts == [] then []
    else if |parts| == 1 then parts[0]
    else parts[0] + sep + Join(parts[1..], sep)
  }

  /** Joining one more part adds the separator and that part at the end. */
  lemma {:induction false} JoinSnoc(parts: seq<string>, p: string, sep: string)
    requires parts != []
    ensures Join(parts + [p], sep) == Join(parts, sep) + sep + p
  {
    if |parts| == 1 {
      assert parts + [p] == [parts[0], p];
    } else {
      assert (parts + [p])[1..] == parts[1..] + [p];
      JoinSnoc(parts[1..], p, sep);
    }
  }

  /** The Unicode digit for `d`. */
  function Digit(d: nat): (c: char)
    requires d < 10
    ensures '0' <= c <= '9'
  {
    (48 + d) as char
  }

  /** Decimal formatting of a non-negative integer (Rust's `{}` on an unsigned value). */
  function NatToString(n: nat): (r: string)
    ensures |r| >= 1
    ensures forall i :: 0 <= i < |r| ==> '0' <= r[i] <= '9'
    ensures (r[0] == '0') <==> (n == 0)
  {
    if n < 10 then [Digit(n)] else NatToString(n / 10) + [Digit(n % 10)]
  }

  /** The position of the first `c` in `s`, or `|s|` when there is none. */
  function IndexOf(s: string, c: char): (i: nat)
    ensures i <= |s|
    ensures i < |s| ==> s[i] == c
    ensures forall j :: 0 <= j < i ==> s[j] != c
  {
    if s == [] then 0 else if s[0] == c then 0 else 1 + IndexOf(s[1..], c)
  }

  /** One piece of `split_inclusive('\n')` with its line ending removed: the `\n`, then one `\r` before it. */
  function StripCarriageReturn(line: string): string {
    if line != [] && line[|line| - 1] == '\r' then line[..|line| - 1] else line
  }

  /**
   * `str::lines`: the text split at each `\n`; a line that ended in `\n`
   * loses one `\r` before it; a last line without `\n` is kept as it is;
   * a final `\n` does not start an empty line.
   */
  function Lines(s: string): (r: seq<string>)
    ensures s == [] <==> r == []
    ensures forall k :: 0 <= k < |r| ==> '\n' !in r[k]
    decreases |s|
  {
    if s == [] then []
    else
      var i := IndexOf(s, '\n');
      if i == |s| then [s]
      else [StripCarriageReturn(s[..i])] + Lines(s[i + 1..])
  }

  /** A line that `str::lines` gives back as it is: no `\n`, and no `\r` at its end. */
  predicate PlainLine(l: string) {
    '\n' !in l && (l == [] || l[|l| - 1] != '\r')
  }

  /** Splitting plain lines joined with `\n` gives them back, when the last one is not empty. */
  lemma {:induction false} LinesOfJoin(ls: seq<string>)
    requires forall k :: 0 <= k < |ls| ==> PlainLine(ls[k])
    requires ls != [] ==> ls[|ls| - 1] != []
    ensures Lines(Join(ls, "\n")) == ls
  {
    if |ls| == 1 {
      assert IndexOf(ls[0], '\n') == |ls[0]|;
    } else if |ls| > 1 {
      var l := ls[0];
      var rest := Join(ls[1..], "\n");
      var s := l + "\n" + rest;
      assert s[|l|] == '\n';
      assert forall j :: 0 <= j < |l| ==> s[j] == l[j] && s[j] != '\n';
      assert IndexOf(s, '\n') == |l|;
      assert s[..|l|] == l;
      assert s[|l| + 1..] == rest;
      LinesOfJoin(ls[1..]);
    }
  }

  /** `htmlescape::encode_minimal` on one character. */
  function EncodeChar(c: char): string {
    match c
    case '&' => "&amp;"
    case '<' => "&lt;"
    case '>' => "&gt;"
    case '"' => "&quot;"
    case '\'' => "&#x27;"
    case _ => [c]
  }

  /** The five characters `encode_minimal` replaces. */
  predicate IsHtmlSpecial(c: char) {
    c == '&' || c == '<' || c == '>' || c == '"' || c == '\''
  }

  /** `htmlescape::encode_minimal`: each special character becomes its entity reference. */
  function EncodeMinimal(s: string): (r: string)
    ensures forall i :: 0 <= i < |r| ==> r[i] != '<' && r[i] != '>' && r[i] != '"' && r[i] != '\''
    ensures |r| >= |s|
  {
    if s == [] then [] else EncodeChar(s[0]) + EncodeMinimal(s[1..])
  }

  /** Escaping is done character by character, so it distributes over concatenation. */
  lemma {:induction false} EncodeMinimalAppend(a: string, b: string)
    ensures EncodeMinimal(a + b) == EncodeMinimal(a) + EncodeMinimal(b)
  {
    if a == [] {
      assert a + b == b;
    } else {
      assert (a + b)[0] == a[0];
      assert (a + b)[1..] == a[1..] + b;
      EncodeMinimalAppend(a[1..], b);
    }
  }

  /** Text with none of the five special characters is left unchanged. */
  lemma {:induction false} EncodeMinimalSafeText(s: string)
    requires forall i :: 0 <= i < |s| ==> !IsHtmlSpecial(s[i])
    ensures EncodeMinimal(s) == s
  {
    if s != [] {
      EncodeMinimalSafeText(s[1..]);
    }
  }

  /** Escaping changes the text exactly when it holds a special character. */
  lemma {:induction false} EncodeMinimalChangesIffSpecial(s: string)
    ensures EncodeMinimal(s) == s <==> forall i :: 0 <= i < |s| ==> !IsHtmlSpecial(s[i])
  {
    if forall i :: 0 <= i < |s| ==> !IsHtmlSpecial(s[i]) {
      EncodeMinimalSafeText(s);
    } else {
      var i :| 0 <= i < |s| && IsHtmlSpecial(s[i]);
      EncodeMinimalLonger(s, i);
    }
  }

  /** A special character makes the escaped text strictly longer. */
  lemma {:induction false} EncodeMinimalLonger(s: string, i: nat)
    requires i < |s| && IsHtmlSpecial(s[i])
    ensures |EncodeMinimal(s)| > |s|
  {
    if i > 0 {
      EncodeMinimalLonger(s[1..], i - 1);
    }
  }
}
