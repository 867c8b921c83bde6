/** The JavaScript string operations the parsers and editors rely on:
    `split` on one character, `join`, `trim`, and the decimal text of a number
    (template literals, `String(n)`). */
module Strings {

  /** The characters `String.prototype.trim` removes: ECMAScript WhiteSpace and LineTerminator. */
  predicate IsWhitespace(c: char) {
    || c == ' ' || c == '\t' || c == '\n' || c == '\r' || c == '\U{000B}' || c == '\U{000C}'
    || c == '\U{00A0}' || c == '\U{1680}' || ('\U{2000}' <= c <= '\U{200A}')
    || c == '\U{2028}' || c == '\U{2029}' || c == '\U{202F}' || c == '\U{205F}'
    || c == '\U{3000}' || c == '\U{FEFF}'
  }

  /** `s.trimStart()`: the suffix left after dropping leading whitespace. */
  function TrimStart(s: string): string {
    if |s| > 0 && IsWhitespace(s[0]) then TrimStart(s[1..]) else s
  }

  /** `trimStart` keeps a suffix that starts with a non-whitespace character
      and drops only whitespace. */
  lemma {:induction false} TrimStartSpec(s: string)
    ensures var r := TrimStart(s);
            && |r| <= |s| && r == s[|s| - |r|..]
            && (r == [] || !IsWhitespace(r[0]))
            && forall i :: 0 <= i < |s| - |r| ==> IsWhitespace(s[i])
  {
    if |s| > 0 && IsWhitespace(s[0]) {
      TrimStartSpec(s[1..]);
    }
  }

  /** `s.trimEnd()`: the prefix left after dropping trailing whitespace. */
  function TrimEnd(s: string): string {
    if |s| > 0 && IsWhitespace(s[|s| - 1]) then TrimEnd(s[..|s| - 1]) else s
  }

  /** `trimEnd` keeps a prefix that ends with a non-whitespace character and
      drops only whitespace. */
  lemma {:induction false} TrimEndSpec(s: string)
    ensures var r := TrimEnd(s);
            && |r| <= |s| && r == s[..|r|]
            && (r == [] || !IsWhitespace(r[|r| - 1]))
            && forall i :: |r| <= i < |s| ==> IsWhitespace(s[i])
  {
    if |s| > 0 && IsWhitespace(s[|s| - 1]) {
      TrimEndSpec(s[..|s| - 1]);
    }
  }

  /** `s.trim()`. */
  function Trim(s: string): string {
    TrimEnd(TrimStart(s))
  }

  /** A string `trim` leaves as it is: no whitespace at either end. */
  predicate Trimmed(s: string) {
    s == [] || (!IsWhitespace(s[0]) && !IsWhitespace(s[|s| - 1]))
  }

  lemma TrimmedIsFixpoint(s: string)
    ensures Trim(s) == s <==> Trimmed(s)
  {
    TrimIsTrimmed(s);
    if Trimmed(s) && s != [] {
      assert TrimStart(s) == s;
      assert TrimEnd(s) == s;
    }
  }

  lemma TrimIsTrimmed(s: string)
    ensures Trimmed(Trim(s))
  {
    var t := TrimStart(s);
    var r := TrimEnd(t);
    TrimStartSpec(s);
    TrimEndSpec(t);
    if r != [] {
      assert r == t[..|r|];
      assert r[0] == t[0];
    }
  }

  /** A space in front of a trimmed string is removed again by `trim`. */
  lemma TrimAfterSpace(s: string)
    requires Trimmed(s)
    ensures Trim(" " + s) == s
  {
    assert (" " + s)[1..] == s;
    assert TrimStart(" " + s) == TrimStart(s);
    TrimmedIsFixpoint(s);
  }

  /** Two non-empty trimmed pieces with anything between them form a trimmed string. */
  lemma TrimmedConcat(x: string, mid: string, y: string)
    requires Trimmed(x) && x != [] && Trimmed(y) && y != []
    ensures Trimmed(x + mid + y)
  {
    var s := x + mid + y;
    assert s[0] == x[0];
    assert s[|s| - 1] == y[|y| - 1];
  }

  /** `s.trim() !== ""`. */
  predicate NonBlank(s: string) {
    Trim(s) != ""
  }

  lemma NonBlankIff(s: string)
    ensures NonBlank(s) <==> exists i :: 0 <= i < |s| && !IsWhitespace(s[i])
  {
    var t := TrimStart(s);
    TrimStartSpec(s);
    TrimEndSpec(t);
    if t != [] {
      assert !IsWhitespace(s[|s| - |t|]);
      assert TrimEnd(t) != [];
    }
  }

  /** `xs.map((x) => x.trim())`. */
  function TrimAll(xs: seq<string>): (r: seq<string>)
    ensures |r| == |xs|
    ensures forall k :: 0 <= k < |xs| ==> r[k] == Trim(xs[k])
  {
    seq(|xs|, k requires 0 <= k < |xs| => Trim(xs[k]))
  }

  /** Position of the first `c` in `s`. */
  function IndexOf(s: string, c: char): (i: nat)
    requires c in s
    ensures i < |s| && s[i] == c && c !in s[..i]
  {
    if s[0] == c then 0 else 1 + IndexOf(s[1..], c)
  }

  lemma IndexOfAfter(x: string, c: char, rest: string)
    requires c !in x
    ensures c in x + [c] + rest && IndexOf(x + [c] + rest, c) == |x|
  {
    var s := x + [c] + rest;
    assert s[|x|] == c;
    var i := IndexOf(s, c);
    assert s[..|x|] == x;
  }

  /** `s.split(sep)` for a one-character separator: every occurrence splits,
      so the result always has one more piece than `s` has separators. */
  function Split(s: string, sep: char): (parts: seq<string>)
    ensures |parts| >= 1
    ensures forall k :: 0 <= k < |parts| ==> sep !in parts[k]
    decreases |s|
  {
    if sep !in s then [s]
    else
      var i := IndexOf(s, sep);
      [s[..i]] + Split(s[i + 1..], sep)
  }

  lemma SplitAt(x: string, c: char, rest: string)
    requires c !in x
    ensures Split(x + [c] + rest, c) == [x] + Split(rest, c)
  {
    var s := x + [c] + rest;
    IndexOfAfter(x, c, rest);
    assert s[..|x|] == x;
    assert s[|x| + 1..] == rest;
  }

  /** `parts.join(sep)`. */
  function Join(parts: seq<string>, sep: string): string
  {
    if parts == [] then ""
    else if |parts| == 1 then parts[0]
    else parts[0] + sep + Join(parts[1..], sep)
  }

  /** Joining the pieces of a split with the separator gives the text back. */
  lemma {:induction false} JoinSplit(s: string, c: char)
    ensures Join(Split(s, c), [c]) == s
    decreases |s|
  {
    if c in s {
      var i := IndexOf(s, c);
      var rest := s[i + 1..];
      var tail := Split(rest, c);
      JoinSplit(rest, c);
      assert Split(s, c) == [s[..i]] + tail;
      JoinCons(s[..i], tail, [c]);
      assert s == s[..i] + [c] + rest;
    }
  }

  /** Joining a piece in front of at least one more. */
  lemma JoinCons(x: string, tail: seq<string>, sep: string)
    requires |tail| >= 1
    ensures Join([x] + tail, sep) == x + sep + Join(tail, sep)
  {
    assert ([x] + tail)[1..] == tail;
  }

  /** The pieces `parts` with `pad` in front of every piece but the first. */
  function PadTail(parts: seq<string>, pad: string): (r: seq<string>)
    ensures |r| == |parts|
  {
    seq(|parts|, k requires 0 <= k < |parts| => if k == 0 then parts[0] else pad + parts[k])
  }

  lemma PadTailCons(parts: seq<string>, pad: string)
    requires |parts| >= 2
    ensures PadTail(parts, pad)
            == [parts[0]] + [pad + PadTail(parts[1..], pad)[0]] + PadTail(parts[1..], pad)[1..]
  {
  }

  /** Splitting text joined with a separator that starts with `c` (the `", "` of
      the editors, or a bare `","`) gives the pieces back, every piece after the
      first with the rest of the separator in front of it, provided no piece holds `c`. */
  lemma {:induction false} SplitJoin(parts: seq<string>, c: char, pad: string)
    requires |parts| >= 1
    requires forall k :: 0 <= k < |parts| ==> c !in parts[k]
    requires c !in pad
    ensures Split(Join(parts, [c] + pad), c) == PadTail(parts, pad)
  {
    if |parts| == 1 {
      assert Join(parts, [c] + pad) == parts[0];
    } else {
      var tail := parts[1..];
      var jt := Join(tail, [c] + pad);
      SplitJoin(tail, c, pad);
      assert Join(parts, [c] + pad) == parts[0] + [c] + (pad + jt);
      SplitAt(parts[0], c, pad + jt);
      PadFirstPiece(pad, jt, c);
      PadTailCons(parts, pad);
    }
  }

  /** A separator-free prefix sticks to the first piece of a split. */
  lemma PadFirstPiece(pad: string, s: string, c: char)
    requires c !in pad
    ensures Split(pad + s, c) == [pad + Split(s, c)[0]] + Split(s, c)[1..]
  {
    if c in s {
      var i := IndexOf(s, c);
      var pre := s[..i];
      var rest := s[i + 1..];
      assert s == pre + [c] + rest;
      assert pad + s == (pad + pre) + [c] + rest;
      SplitAt(pre, c, rest);
      SplitAt(pad + pre, c, rest);
    } else {
      assert c !in pad + s;
    }
  }

  /** Splitting text joined with a bare one-character separator gives the pieces back. */
  lemma SplitJoinExact(parts: seq<string>, c: char)
    requires |parts| >= 1
    requires forall k :: 0 <= k < |parts| ==> c !in parts[k]
    ensures Split(Join(parts, [c]), c) == parts
  {
    SplitJoin(parts, c, "");
    assert [c] + "" == [c];
    var r := PadTail(parts, "");
    forall k | 0 <= k < |parts| ensures r[k] == parts[k] {
      assert "" + parts[k] == parts[k];
    }
  }

  /** The decimal digit `d`. */
  function DigitChar(d: nat): char
    requires d < 10
  {
    ('0' as int + d) as char
  }

  /** `String(n)` for a natural number: its decimal text with no leading zeros. */
  function NatToString(n: nat): (s: string)
    ensures |s| >= 1
    ensures n >= 10 ==> |s| >= 2
    ensures forall k :: 0 <= k < |s| ==> '0' <= s[k] <= '9'
  {
    if n < 10 then [DigitChar(n)] else NatToString(n / 10) + [DigitChar(n % 10)]
  }

  /** Different numbers have different decimal texts. */
  lemma {:induction false} NatToStringInjective(a: nat, b: nat)
    requires NatToString(a) == NatToString(b)
    ensures a == b
  {
    if a >= 10 && b >= 10 {
      var sa, sb := NatToString(a), NatToString(b);
      assert sa[|sa| - 1] == sb[|sb| - 1];
      assert a % 10 == b % 10;
      assert sa[..|sa| - 1] == NatToString(a / 10);
      assert sb[..|sb| - 1] == NatToString(b / 10);
      NatToStringInjective(a / 10, b / 10);
    } else if a < 10 && b < 10 {
      assert NatToString(a)[0] == NatToString(b)[0];
    }
  }

  /** `String(i)` for an integer. */
  function IntToString(i: int): string {
    if i < 0 then "-" + NatToString(-i) else NatToString(i)
  }
}
