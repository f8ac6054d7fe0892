/**
 * String primitives the controllers and the dashboard rely on: white space as .NET and
 * ECMAScript define it, trimming, splitting on a character, joining, decimal digits and
 * ordinal ASCII case folding.
 */
module Text {
  import opened Wrappers

  /** Whose definition of white space applies: .NET's char.IsWhiteSpace (used by
      string.Trim and string.IsNullOrWhiteSpace) or ECMAScript's String.prototype.trim. */
  datatype Runtime = DotNet | EcmaScript

  /** The Unicode White_Space characters both runtimes share, plus U+0085 for .NET and
      U+FEFF (zero width no-break space) for ECMAScript. */
  predicate IsWhiteSpace(rt: Runtime, c: char) {
    || c == ' ' || ('\t' <= c <= '\r')
    || c == '\U{A0}' || c == '\U{1680}' || ('\U{2000}' <= c <= '\U{200A}')
    || c == '\U{2028}' || c == '\U{2029}' || c == '\U{202F}' || c == '\U{205F}' || c == '\U{3000}'
    || (rt == DotNet && c == '\U{85}')
    || (rt == EcmaScript && c == '\U{FEFF}')
  }

  predicate AllWhiteSpace(rt: Runtime, s: string) {
    forall k :: 0 <= k < |s| ==> IsWhiteSpace(rt, s[k])
  }

  /** string.IsNullOrWhiteSpace: null, empty, or white space only. */
  predicate IsNullOrWhiteSpace(s: Option<string>) {
    s.None? || AllWhiteSpace(DotNet, s.value)
  }

  /** No white space at either end. */
  predicate IsTrimmed(rt: Runtime, r: string) {
    r == [] || (!IsWhiteSpace(rt, r[0]) && !IsWhiteSpace(rt, r[|r| - 1]))
  }

  /** r sits at offset i of s, and everything around it is white space. */
  ghost predicate TrimmedAt(rt: Runtime, s: string, r: string, i: int) {
    && 0 <= i && i + |r| <= |s|
    && (forall k :: 0 <= k < |r| ==> r[k] == s[i + k])
    && (forall k :: 0 <= k < i ==> IsWhiteSpace(rt, s[k]))
    && (forall k :: i + |r| <= k < |s| ==> IsWhiteSpace(rt, s[k]))
  }

  /** The index of the first character at or after i that is not white space (|s| if none). */
  function SkipWhiteSpace(rt: Runtime, s: string, i: nat): (n: nat)
    requires i <= |s|
    ensures i <= n <= |s|
    ensures forall k :: i <= k < n ==> IsWhiteSpace(rt, s[k])
    ensures n < |s| ==> !IsWhiteSpace(rt, s[n])
    decreases |s| - i
  {
    if i == |s| || !IsWhiteSpace(rt, s[i]) then i else SkipWhiteSpace(rt, s, i + 1)
  }

  /** The end, at most j and at least lo, of s[lo..j] with its trailing white space removed. */
  function SkipWhiteSpaceBack(rt: Runtime, s: string, lo: nat, j: nat): (m: nat)
    requires lo <= j <= |s|
    ensures lo <= m <= j
    ensures forall k :: m <= k < j ==> IsWhiteSpace(rt, s[k])
    ensures m > lo ==> !IsWhiteSpace(rt, s[m - 1])
    decreases j
  {
    if j == lo || !IsWhiteSpace(rt, s[j - 1]) then j else SkipWhiteSpaceBack(rt, s, lo, j - 1)
  }

  /** string.Trim() / String.prototype.trim(): the infix of s left after removing the white
      space at both ends. It is empty exactly when s is all white space. */
  function Trim(rt: Runtime, s: string): (r: string)
    ensures IsTrimmed(rt, r)
    ensures exists i :: TrimmedAt(rt, s, r, i)
    ensures r == [] <==> AllWhiteSpace(rt, s)
  {
    var a := SkipWhiteSpace(rt, s, 0);
    var b := SkipWhiteSpaceBack(rt, s, a, |s|);
    assert TrimmedAt(rt, s, s[a..b], a);
    s[a..b]
  }

  /** Trim is determined by its contract: no other infix of s qualifies. */
  lemma {:induction false} TrimIsUnique(rt: Runtime, s: string, r: string, i: int)
    requires IsTrimmed(rt, r) && TrimmedAt(rt, s, r, i)
    ensures r == Trim(rt, s)
  {
    var t := Trim(rt, s);
    var j :| TrimmedAt(rt, s, t, j);
    if r == [] {
      assert AllWhiteSpace(rt, s);
    } else {
      assert r[0] == s[i];
      assert r[|r| - 1] == s[i + |r| - 1];
      if t != [] {
        assert t[0] == s[j];
        assert t[|t| - 1] == s[j + |t| - 1];
      }
      // The first non-white character of s starts both infixes, the last one ends both.
      assert i == j;
      assert |r| == |t|;
    }
  }

  /** The C# `s?.Trim()` idiom: null stays null. */
  function TrimNullable(s: Option<string>): (r: Option<string>)
    ensures r.None? <==> s.None?
    ensures r.Some? ==> IsTrimmed(DotNet, r.value) && |r.value| <= |s.value|
    ensures r.Some? ==> exists i :: TrimmedAt(DotNet, s.value, r.value, i)
  {
    match s
    case None => None
    case Some(v) => Some(Trim(DotNet, v))
  }

  // ---------------------------------------------------------------- split and join

  /** parts joined with sep between consecutive parts (Array.prototype.join, string.Join). */
  function Join(parts: seq<string>, sep: string): string {
    if |parts| == 0 then ""
    else if |parts| == 1 then parts[0]
    else parts[0] + sep + Join(parts[1..], sep)
  }

  /** string.Split(char): the maximal runs between occurrences of c, empty runs included.
      Joining the parts back with c gives s again, and no part contains c. */
  function Split(s: string, c: char): (parts: seq<string>)
    ensures |parts| >= 1
    ensures Join(parts, [c]) == s
    ensures forall k :: 0 <= k < |parts| ==> c !in parts[k]
  {
    if s == [] then [""]
    else
      var rest := Split(s[1..], c);
      if s[0] == c then
        assert s == [c] + Join(rest, [c]);
        [""] + rest
      else
        var parts := [[s[0]] + rest[0]] + rest[1..];
        assert parts[1..] == rest[1..];
        assert s == [s[0]] + s[1..];
        parts
  }

  /** A character that is in neither the separator nor any part is not in the joined string. */
  lemma {:induction false} JoinExcludes(parts: seq<string>, sep: string, c: char)
    requires c !in sep
    requires forall k :: 0 <= k < |parts| ==> c !in parts[k]
    ensures c !in Join(parts, sep)
  {
    if |parts| > 1 {
      JoinExcludes(parts[1..], sep, c);
    }
  }

  /** A cell holding a separator joins to the same text as the two cells either side of it. */
  lemma {:induction false} JoinSplitsCell(pre: seq<string>, x: string, y: string, post: seq<string>, c: char)
    ensures Join(pre + [x + [c] + y] + post, [c]) == Join(pre + [x, y] + post, [c])
  {
    if pre == [] {
      assert pre + [x + [c] + y] + post == [x + [c] + y] + post;
      assert pre + [x, y] + post == [x] + ([y] + post);
      assert ([x] + ([y] + post))[1..] == [y] + post;
      if post != [] {
        assert ([x + [c] + y] + post)[1..] == post;
        assert ([y] + post)[1..] == post;
      }
    } else {
      JoinSplitsCell(pre[1..], x, y, post, c);
      assert (pre + [x + [c] + y] + post)[1..] == pre[1..] + [x + [c] + y] + post;
      assert (pre + [x, y] + post)[1..] == pre[1..] + [x, y] + post;
    }
  }

  /** A cell holding one separator splits into two parts, every later part moving one place. */
  lemma {:induction false} SplitCellWithSeparator(cells: seq<string>, i: int, x: string, y: string, c: char)
    requires 0 <= i < |cells| && cells[i] == x + [c] + y
    requires c !in x && c !in y
    requires forall k :: 0 <= k < |cells| && k != i ==> c !in cells[k]
    ensures Split(Join(cells, [c]), c) == cells[..i] + [x, y] + cells[i + 1..]
  {
    var pre, post := cells[..i], cells[i + 1..];
    assert cells == pre + [x + [c] + y] + post;
    JoinSplitsCell(pre, x, y, post, c);
    var split := pre + [x, y] + post;
    assert forall k :: 0 <= k < |split| ==> c !in split[k] by {
      forall k | 0 <= k < |split| ensures c !in split[k] {
        if k < i { assert split[k] == cells[k]; }
        else if k >= i + 2 { assert split[k] == cells[k - 1]; }
      }
    }
    SplitJoin(split, c);
  }

  /** Lines joined with CR LF after a header line, split on LF: the header and every line but
      the last keep their CR. */
  lemma {:induction false} SplitCrLfLines(header: string, lines: seq<string>)
    requires |lines| >= 1 && '\n' !in header
    requires forall k :: 0 <= k < |lines| ==> '\n' !in lines[k]
    ensures var records := Split(header + "\r\n" + Join(lines, "\r\n"), '\n');
      && |records| == |lines| + 1
      && records[0] == header + "\r"
      && (forall k :: 0 <= k < |lines| - 1 ==> records[k + 1] == lines[k] + "\r")
      && records[|lines|] == lines[|lines| - 1]
  {
    var parts := [header] + lines;
    assert parts[1..] == lines;
    assert header + "\r\n" + Join(lines, "\r\n") == Join(parts, ['\r', '\n']);
    SplitJoinTerminated(parts, '\r', '\n');
    var records := Split(Join(parts, ['\r', '\n']), '\n');
    forall k | 0 <= k < |lines| - 1 ensures records[k + 1] == lines[k] + "\r" {
      assert parts[k + 1] == lines[k];
    }
  }

  /** Split undoes Join: parts free of the separator come back unchanged. */
  lemma {:induction false} SplitJoin(parts: seq<string>, c: char)
    requires |parts| >= 1
    requires forall k :: 0 <= k < |parts| ==> c !in parts[k]
    ensures Split(Join(parts, [c]), c) == parts
  {
    SplitConcat(parts[0], if |parts| == 1 then [] else parts[1..], c);
  }

  /** Splitting p + c + Join(more) when p has no c: the first part is p. */
  lemma {:induction false} SplitConcat(p: string, more: seq<string>, c: char)
    requires c !in p
    requires forall k :: 0 <= k < |more| ==> c !in more[k]
    ensures Split(Join([p] + more, [c]), c) == [p] + more
    decreases |more|, |p|
  {
    if |more| == 0 {
      assert Join([p] + more, [c]) == p;
      SplitNoSeparator(p, c);
    } else {
      var tail := Join(more, [c]);
      assert ([p] + more)[1..] == more;
      assert Join([p] + more, [c]) == p + [c] + tail;
      SplitConcat(more[0], more[1..], c);
      assert [more[0]] + more[1..] == more;
      SplitPrefix(p, tail, c);
    }
  }

  /** A string without the separator is one part. */
  lemma {:induction false} SplitNoSeparator(p: string, c: char)
    requires c !in p
    ensures Split(p, c) == [p]
  {
    if p != [] {
      SplitNoSeparator(p[1..], c);
      assert [p[0]] + p[1..] == p;
    }
  }

  /** Three separator-free fields joined by the separator split back into those fields. */
  lemma {:induction false} SplitThree(a: string, b: string, d: string, c: char)
    requires c !in a && c !in b && c !in d
    ensures Split(a + [c] + b + [c] + d, c) == [a, b, d]
  {
    assert a + [c] + b + [c] + d == a + [c] + (b + [c] + d);
    SplitNoSeparator(d, c);
    SplitPrefix(b, d, c);
    SplitPrefix(a, b + [c] + d, c);
  }

  /** Prepending a separator-free p and a separator adds p as a new first part. */
  lemma {:induction false} SplitPrefix(p: string, tail: string, c: char)
    requires c !in p
    ensures Split(p + [c] + tail, c) == [p] + Split(tail, c)
  {
    if p == [] {
      assert p + [c] + tail == [c] + tail;
      assert ([c] + tail)[1..] == tail;
    } else {
      var s := p + [c] + tail;
      assert s[0] == p[0] && s[1..] == p[1..] + [c] + tail;
      SplitPrefix(p[1..], tail, c);
      assert [p[0]] + p[1..] == p;
    }
  }

  /** Splitting lines joined with a two-character terminator pre + c on c keeps pre at the
      end of every part but the last (CRLF lines split on LF keep their CR). */
  lemma {:induction false} SplitJoinTerminated(parts: seq<string>, pre: char, c: char)
    requires |parts| >= 1 && pre != c
    requires forall k :: 0 <= k < |parts| ==> c !in parts[k]
    ensures |Split(Join(parts, [pre, c]), c)| == |parts|
    ensures forall k :: 0 <= k < |parts| - 1 ==> Split(Join(parts, [pre, c]), c)[k] == parts[k] + [pre]
    ensures Split(Join(parts, [pre, c]), c)[|parts| - 1] == parts[|parts| - 1]
  {
    if |parts| == 1 {
      SplitNoSeparator(parts[0], c);
    } else {
      var tail := Join(parts[1..], [pre, c]);
      assert Join(parts, [pre, c]) == (parts[0] + [pre]) + [c] + tail;
      SplitPrefix(parts[0] + [pre], tail, c);
      SplitJoinTerminated(parts[1..], pre, c);
      var rest := Split(tail, c);
      assert Split(Join(parts, [pre, c]), c) == [parts[0] + [pre]] + rest;
      forall k | 1 <= k < |parts| - 1
        ensures ([parts[0] + [pre]] + rest)[k] == parts[k] + [pre]
      {
        assert rest[k - 1] == parts[1..][k - 1] + [pre];
      }
    }
  }

  // ---------------------------------------------------------------- decimal digits

  predicate IsDigit(c: char) { '0' <= c <= '9' }

  predicate IsDigits(s: string) { forall k :: 0 <= k < |s| ==> IsDigit(s[k]) }

  /** A string of digits holds no character that is not a digit. */
  lemma DigitsExclude(s: string, c: char)
    requires IsDigits(s) && !IsDigit(c)
    ensures c !in s
  {
  }

  function DigitChar(d: nat): (c: char)
    requires d < 10
    ensures IsDigit(c) && c as int - '0' as int == d
  {
    ('0' as int + d) as char
  }

  /** The value of a string of decimal digits, most significant first (int.Parse on a plain
      digit string). */
  function DigitsValue(s: string): nat
    requires IsDigits(s)
  {
    if s == [] then 0
    else DigitsValue(s[..|s| - 1]) * 10 + (s[|s| - 1] as int - '0' as int)
  }

  /** The decimal rendering of a natural number: digits only, no leading zero, and it reads
      back as n. */
  function NatToDecimal(n: nat): (r: string)
    ensures |r| >= 1 && IsDigits(r) && DigitsValue(r) == n
    ensures r[0] == '0' ==> n == 0
    ensures n < 10 <==> |r| == 1
  {
    if n < 10 then [DigitChar(n)]
    else
      var p := NatToDecimal(n / 10);
      var r := p + [DigitChar(n % 10)];
      assert r[..|r| - 1] == p;
      r
  }

  /** Int32.ToString(): a minus sign before the magnitude of a negative number. */
  function IntToDecimal(i: int): (r: string)
    ensures i >= 0 ==> IsDigits(r) && |r| >= 1 && DigitsValue(r) == i
    ensures i < 0 ==> |r| >= 2 && r[0] == '-' && IsDigits(r[1..]) && DigitsValue(r[1..]) == -i
    ensures i >= 0 && r[0] == '0' ==> i == 0
    ensures i >= 0 ==> (i < 10 <==> |r| == 1)
    ensures i < 0 ==> r[1] != '0'
  {
    if i >= 0 then NatToDecimal(i)
    else
      var m := NatToDecimal(-i);
      assert (['-'] + m)[1..] == m;
      ['-'] + m
  }

  /** `String(n).padStart(2, "0")`: at least two digits, reading back as n. */
  function PadTwo(n: nat): (r: string)
    ensures IsDigits(r) && DigitsValue(r) == n
    ensures n < 100 ==> |r| == 2
    ensures n >= 10 ==> r == NatToDecimal(n)
  {
    if n < 10 then
      var r := ['0', DigitChar(n)];
      assert r[..1] == ['0'] && ['0'][..0] == [];
      assert DigitsValue(['0']) == 0;
      r
    else NatToDecimal(n)
  }

  // ---------------------------------------------------------------- case folding

  /** Upper-casing of the ASCII letters; every other character is left as it is. */
  function ToUpperAscii(c: char): (u: char)
    ensures 'a' <= c <= 'z' ==> u as int == c as int - 32
    ensures !('a' <= c <= 'z') ==> u == c
  {
    if 'a' <= c <= 'z' then (c as int - 32) as char else c
  }

  /** string.Equals(a, b, StringComparison.OrdinalIgnoreCase), restricted to ASCII folding:
      same length, and the characters agree after upper-casing. */
  predicate EqualsIgnoreCase(a: string, b: string) {
    |a| == |b| && forall k :: 0 <= k < |a| ==> ToUpperAscii(a[k]) == ToUpperAscii(b[k])
  }
}
