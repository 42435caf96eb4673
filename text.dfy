/** String primitives shared by every stage of the scraper: the whitespace
    class of Python's `str.isspace` (which is also what `\s` means in a `re`
    pattern over `str`), `str.strip`, `str.join`, the `re.sub("\s+", " ", _)`
    collapse and the single-character `re.sub("[...]$", "", _)` trims. */
module Text {

  /** The non-breaking space the CMS puts between words. */
  const NBSP: char := '\U{00A0}'

  /** Python's `str.isspace()`, which is also what `\s` means in a `re`
      pattern over `str`: the ASCII controls tab to carriage return, the
      separators U+001C..U+001F, the space, U+0085, the non-breaking space,
      U+1680, U+2000..U+200A, the line and paragraph separators, U+202F,
      U+205F and U+3000. */
  predicate IsWs(c: char)
  {
    || '\t' <= c <= '\r' || '\U{001C}' <= c <= ' ' || c == '\U{0085}' || c == NBSP
    || c == '\U{1680}' || '\U{2000}' <= c <= '\U{200A}' || c == '\U{2028}' || c == '\U{2029}'
    || c == '\U{202F}' || c == '\U{205F}' || c == '\U{3000}'
  }

  /** The plain and non-breaking spaces, tab and the line breaks are
      whitespace; ASCII letters, digits, `_` and the Cyrillic block are not. */
  lemma WsClass(c: char)
    ensures c in {' ', '\t', '\n', '\r', NBSP} ==> IsWs(c)
    ensures IsWs(c) ==> c != '_' && !IsDigit(c) && !('A' <= c <= 'Z') && !('a' <= c <= 'z')
    ensures '\U{0400}' <= c <= '\U{04FF}' ==> !IsWs(c)
  {
  }

  /** `\d`, restricted to the ASCII digits. */
  predicate IsDigit(c: char) { '0' <= c <= '9' }

  /** `str.lower()` on the letters this scraper meets: ASCII, the Cyrillic
      capitals U+0400..U+042F and the Ukrainian U+0490; identity elsewhere. */
  function Lower(c: char): char
  {
    if 'A' <= c <= 'Z' then (c as int + 32) as char
    else if '\U{0410}' <= c <= '\U{042F}' then (c as int + 0x20) as char
    else if '\U{0400}' <= c <= '\U{040F}' then (c as int + 0x50) as char
    else if c == '\U{0490}' then '\U{0491}'
    else c
  }

  function LowerString(s: string): (r: string)
    ensures |r| == |s| && forall j :: 0 <= j < |s| ==> r[j] == Lower(s[j])
  {
    if s == [] then [] else [Lower(s[0])] + LowerString(s[1..])
  }

  predicate AllWs(s: string) { forall j :: 0 <= j < |s| ==> IsWs(s[j]) }

  predicate AllDigits(s: string) { forall j :: 0 <= j < |s| ==> IsDigit(s[j]) }

  predicate StartsWithDigit(s: string) { |s| > 0 && IsDigit(s[0]) }

  predicate HasPrefix(s: string, p: string) { |p| <= |s| && s[..|p|] == p }

  /** A string is its prefix followed by the rest. */
  lemma PrefixThenRest(s: string, p: string)
    requires HasPrefix(s, p)
    ensures s == p + s[|p|..]
  {
  }

  /** `p + t` starts with `p`, and `t` follows it. */
  lemma ConcatHasPrefix(p: string, t: string)
    ensures HasPrefix(p + t, p) && (p + t)[|p|..] == t
  {
  }

  /** No newline in `s[a..b]`: the stretch a `.` can run over. */
  predicate NoNewline(s: string, a: nat, b: nat)
    requires a <= b <= |s|
  {
    forall j :: a <= j < b ==> s[j] != '\n'
  }

  /** No leading and no trailing whitespace: what `str.strip` leaves. */
  predicate Stripped(s: string) { s == [] || (!IsWs(s[0]) && !IsWs(s[|s| - 1])) }

  /** Length of the run of whitespace that starts at `i`. */
  function WsRun(s: string, i: nat): (k: nat)
    requires i <= |s|
    ensures i + k <= |s|
    ensures forall j :: i <= j < i + k ==> IsWs(s[j])
    ensures i + k == |s| || !IsWs(s[i + k])
    decreases |s| - i
  {
    if i < |s| && IsWs(s[i]) then 1 + WsRun(s, i + 1) else 0
  }

  /** Length of the run of digits that starts at `i`. */
  function DigitRun(s: string, i: nat): (k: nat)
    requires i <= |s|
    ensures i + k <= |s|
    ensures forall j :: i <= j < i + k ==> IsDigit(s[j])
    ensures i + k == |s| || !IsDigit(s[i + k])
    decreases |s| - i
  {
    if i < |s| && IsDigit(s[i]) then 1 + DigitRun(s, i + 1) else 0
  }

  /** `str.lstrip()`: the longest suffix that does not start with whitespace. */
  function StripLeft(s: string): (r: string)
    ensures |r| <= |s| && r == s[|s| - |r|..]
    ensures forall j :: 0 <= j < |s| - |r| ==> IsWs(s[j])
    ensures r == [] || !IsWs(r[0])
  {
    if s != [] && IsWs(s[0]) then StripLeft(s[1..]) else s
  }

  /** `str.rstrip()`: the longest prefix that does not end with whitespace. */
  function StripRight(s: string): (r: string)
    ensures |r| <= |s| && r == s[..|r|]
    ensures forall j :: |r| <= j < |s| ==> IsWs(s[j])
    ensures r == [] || !IsWs(r[|r| - 1])
  {
    if s != [] && IsWs(s[|s| - 1]) then StripRight(s[..|s| - 1]) else s
  }

  /** `str.strip()`. */
  function Strip(s: string): (r: string)
    ensures Stripped(r)
    ensures |r| <= |s|
  {
    StripRight(StripLeft(s))
  }

  /** Stripped text is left as it is. */
  lemma StripOfStripped(s: string)
    requires Stripped(s)
    ensures Strip(s) == s
  {
  }

  /** Stripping twice is stripping once. */
  lemma StripIdempotent(s: string)
    ensures Strip(Strip(s)) == Strip(s)
  {
    StripOfStripped(Strip(s));
  }

  /** `re.sub(pat, "", s)` for a one-character class `[...]` followed by `$`,
      on text that does not end with a newline (there `$` can only be the end
      of the string): one trailing character of the class is dropped. */
  function DropLastIn(s: string, cls: char -> bool): (r: string)
    requires s == [] || s[|s| - 1] != '\n'
    ensures r == s || (s != [] && cls(s[|s| - 1]) && r == s[..|s| - 1])
    ensures s != [] && cls(s[|s| - 1]) ==> r == s[..|s| - 1]
  {
    if s != [] && cls(s[|s| - 1]) then s[..|s| - 1] else s
  }

  /** `sep.join(parts)`. */
  function JoinWith(sep: string, parts: seq<string>): string
  {
    if parts == [] then ""
    else if |parts| == 1 then parts[0]
    else parts[0] + sep + JoinWith(sep, parts[1..])
  }

  /** `c` does not occur in `s`. */
  predicate Free(s: string, c: char) { forall j :: 0 <= j < |s| ==> s[j] != c }

  /** Position of the first `c` at or after `i`, or `|s|` when there is none. */
  function SepAt(s: string, c: char, i: nat): (r: nat)
    requires i <= |s|
    ensures i <= r <= |s| && (forall j :: i <= j < r ==> s[j] != c) && (r < |s| ==> s[r] == c)
    decreases |s| - i
  {
    if i == |s| || s[i] == c then i else SepAt(s, c, i + 1)
  }

  /** `s.split(c)` for a one-character separator. */
  function Split(s: string, c: char): (r: seq<string>)
    ensures |r| >= 1
    ensures forall j :: 0 <= j < |r| ==> Free(r[j], c)
    decreases |s|
  {
    var e := SepAt(s, c, 0);
    if e == |s| then [s] else [s[..e]] + Split(s[e + 1..], c)
  }

  /** Splitting on `c` and joining with it gives the text back. */
  lemma {:induction false} SplitJoin(s: string, c: char)
    ensures JoinWith([c], Split(s, c)) == s
    decreases |s|
  {
    var e := SepAt(s, c, 0);
    if e < |s| {
      var rest := Split(s[e + 1..], c);
      SplitJoin(s[e + 1..], c);
      JoinCons([c], s[..e], rest);
      assert s == s[..e] + [c] + s[e + 1..];
    }
  }

  lemma JoinCons(sep: string, a: string, rest: seq<string>)
    requires rest != []
    ensures JoinWith(sep, [a] + rest) == a + sep + JoinWith(sep, rest)
  {
    assert ([a] + rest)[1..] == rest;
  }

  /** The last piece of the split is the text after the last `c`: a suffix
      of `s` that is either all of `s` or comes right after a `c`. */
  lemma {:induction false} SplitLast(s: string, c: char)
    ensures var r := Split(s, c); var t := r[|r| - 1];
      |t| <= |s| && t == s[|s| - |t|..] && (|t| < |s| ==> s[|s| - |t| - 1] == c)
    decreases |s|
  {
    var e := SepAt(s, c, 0);
    if e < |s| {
      SplitLast(s[e + 1..], c);
      var r := Split(s, c);
      assert r[1..] == Split(s[e + 1..], c);
      assert r[|r| - 1] == r[1..][|r| - 2];
    }
  }

  /** `[x.strip() for x in xs]`. */
  function StripAll(xs: seq<string>): seq<string>
  {
    seq(|xs|, j requires 0 <= j < |xs| => Strip(xs[j]))
  }

  /** `[y for y in ys if y]` over stripped texts: the non-empty ones, in order. */
  function NonEmpty(ys: seq<string>): (r: seq<string>)
    requires forall j :: 0 <= j < |ys| ==> Stripped(ys[j])
    ensures |r| <= |ys|
    ensures forall j :: 0 <= j < |r| ==> r[j] != [] && Stripped(r[j])
  {
    if ys == [] then []
    else (if ys[0] == [] then [] else [ys[0]]) + NonEmpty(ys[1..])
  }

  /** `"".join(parts)`. */
  function Concat(parts: seq<string>): string
  {
    if parts == [] then "" else parts[0] + Concat(parts[1..])
  }

  /** No whitespace other than a plain space, and never two whitespace
      characters in a row: the shape `re.sub("\s+", " ", _)` produces. */
  predicate Collapsed(s: string)
  {
    && (forall i :: 0 <= i < |s| && IsWs(s[i]) ==> s[i] == ' ')
    && (forall i, j {:trigger s[i], s[j]} :: 0 <= i < |s| && 0 <= j < |s| && j == i + 1 ==> !(IsWs(s[i]) && IsWs(s[j])))
  }

  /** `re.sub("\s+", " ", s)`: every maximal run of whitespace becomes one space. */
  function Collapse(s: string): (r: string)
    ensures Collapsed(r)
    ensures s == [] <==> r == []
    ensures s != [] && IsWs(s[0]) ==> r[0] == ' '
    ensures s != [] && !IsWs(s[0]) ==> r[0] == s[0]
    decreases |s|
  {
    if s == [] then []
    else if IsWs(s[0]) then
      var k := WsRun(s, 0);
      var rest := Collapse(s[k..]);
      assert s[k..] != [] ==> !IsWs(s[k..][0]);
      " " + rest
    else [s[0]] + Collapse(s[1..])
  }

  /** The characters of `s` that are not whitespace, in order. */
  function NonWs(s: string): string
  {
    if s == [] then [] else (if IsWs(s[0]) then [] else [s[0]]) + NonWs(s[1..])
  }

  lemma {:induction false} NonWsOfAllWs(s: string)
    requires AllWs(s)
    ensures NonWs(s) == []
  {
    if s != [] { NonWsOfAllWs(s[1..]); }
  }

  lemma {:induction false} NonWsConcat(a: string, b: string)
    ensures NonWs(a + b) == NonWs(a) + NonWs(b)
  {
    if a == [] {
      assert a + b == b;
    } else {
      assert (a + b)[1..] == a[1..] + b;
      NonWsConcat(a[1..], b);
    }
  }

  /** Collapsing whitespace keeps every other character, in order. */
  lemma {:induction false} CollapseKeepsText(s: string)
    ensures NonWs(Collapse(s)) == NonWs(s)
    decreases |s|
  {
    if s == [] {
    } else if IsWs(s[0]) {
      var k := WsRun(s, 0);
      assert s == s[..k] + s[k..];
      assert AllWs(s[..k]);
      NonWsOfAllWs(s[..k]);
      NonWsConcat(s[..k], s[k..]);
      CollapseKeepsText(s[k..]);
      NonWsConcat(" ", Collapse(s[k..]));
      assert NonWs(" ") == [];
    } else {
      CollapseKeepsText(s[1..]);
      NonWsConcat([s[0]], Collapse(s[1..]));
      assert NonWs([s[0]]) == [s[0]];
    }
  }

  /** Collapsing is the identity exactly on collapsed text, so collapsing
      twice is collapsing once. */
  lemma {:induction false} CollapseFixesCollapsed(s: string)
    ensures Collapsed(s) <==> Collapse(s) == s
    decreases |s|
  {
    if s != [] {
      if Collapsed(s) {
        assert Collapsed(s[1..]);
        CollapseFixesCollapsed(s[1..]);
        if IsWs(s[0]) {
          assert WsRun(s, 0) == 1 by {
            assert |s| == 1 || !IsWs(s[1]);
            assert WsRun(s, 1) == 0;
          }
        }
      }
    }
  }

  lemma CollapseIdempotent(s: string)
    ensures Collapse(Collapse(s)) == Collapse(s)
  {
    CollapseFixesCollapsed(Collapse(s));
  }
}
