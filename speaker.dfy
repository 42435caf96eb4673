/** `extract_spokesperson`: a question line is split on its
    `(Доповідач – Name)` annotation into the question text and the speaker.

    The call passes `re.I` where `re.split` expects `maxsplit`, so the match
    is case-sensitive and at most two annotations are split off; the rest of
    the line stays in the last part. */
module Speaker {
  import opened Text
  import opened Agenda

  const MARKER: string := "(Доповідач"

  /** The character class `[-–—]`. */
  const DASHES: set<char> := {'-', '–', '—'}

  /** One match of `\(Доповідач(?:\s+?[-–—])?(.+?)\)`: the match is
      `s[start..end]`, its group `s[open..close]`, and `s[close]` is `)`. */
  datatype Span = Span(start: nat, open: nat, close: nat, end: nat)

  /** The lazy `(.+?)\)` with the group starting at `p`, tried from end `e`
      on: the first `)` after at least one character, with no newline in
      between. */
  function CloseFrom(s: string, p: nat, e: nat): (r: Option<nat>)
    requires p < e <= |s|
    requires NoNewline(s, p, e - 1)
    ensures r.Some? ==> e <= r.value < |s| && s[r.value] == ')' && NoNewline(s, p, r.value)
    ensures r.Some? ==> forall j :: e <= j < r.value ==> s[j] != ')'
    ensures r.None? ==> forall j :: e <= j < |s| && NoNewline(s, p, j) ==> s[j] != ')'
    decreases |s| - e
  {
    if s[e - 1] == '\n' then None
    else if e == |s| then None
    else if s[e] == ')' then Some(e)
    else CloseFrom(s, p, e + 1)
  }

  /** `(.+?)\)` with the group starting at `p`. */
  function GroupAt(s: string, p: nat): (r: Option<nat>)
    requires p <= |s|
    ensures r.Some? ==> p < r.value < |s| && s[r.value] == ')' && NoNewline(s, p, r.value)
    ensures r.Some? ==> forall j :: p < j < r.value ==> s[j] != ')'
  {
    if p < |s| then CloseFrom(s, p, p + 1) else None
  }

  /** The match of the annotation pattern that starts at `i`, if any. The
      optional `\s+?[-–—]` can only end at the first character after the
      whitespace run (a dash is not whitespace); when the group cannot be
      closed after the dash, the engine retries with the option skipped. */
  function SpeakerAt(s: string, i: nat): (r: Option<Span>)
    requires i <= |s|
    ensures r.Some? ==> r.value.start == i && HasPrefix(s[i..], MARKER)
    ensures r.Some? ==> i + |MARKER| <= r.value.open < r.value.close < r.value.end <= |s|
    ensures r.Some? ==> r.value.end == r.value.close + 1 && s[r.value.close] == ')'
    ensures r.Some? ==> NoNewline(s, r.value.open, r.value.close)
    ensures r.Some? ==> forall j :: r.value.open < j < r.value.close ==> s[j] != ')'
    ensures !HasPrefix(s[i..], MARKER) ==> r.None?
    ensures (HasPrefix(s[i..], MARKER)
             && exists e :: i + |MARKER| < e < |s| && s[e] == ')' && NoNewline(s, i + |MARKER|, e))
            ==> r.Some?
  {
    if HasPrefix(s[i..], MARKER) then
      var p0 := i + |MARKER|;
      var w := WsRun(s, p0);
      var dashed := if w >= 1 && p0 + w < |s| && s[p0 + w] in DASHES then GroupAt(s, p0 + w + 1) else None;
      if dashed.Some? then Some(Span(i, p0 + w + 1, dashed.value, dashed.value + 1))
      else match GroupAt(s, p0)
        case Some(e) => Some(Span(i, p0, e, e + 1))
        case None => None
    else None
  }

  /** `re.search` of the annotation from position `from`: the leftmost match. */
  function FindSpeaker(s: string, from: nat): (r: Option<Span>)
    requires from <= |s|
    ensures r.Some? ==> from <= r.value.start <= |s| && SpeakerAt(s, r.value.start) == r
    decreases |s| - from
  {
    if SpeakerAt(s, from).Some? then SpeakerAt(s, from)
    else if from == |s| then None
    else FindSpeaker(s, from + 1)
  }

  /** The pattern matches nowhere in `[a, b)`. */
  predicate NoSpeakerIn(s: string, a: nat, b: nat)
    requires a <= b <= |s|
  {
    forall i :: a <= i < b ==> SpeakerAt(s, i).None?
  }

  /** The match found is the leftmost one, and none is found only when the
      pattern matches nowhere. */
  lemma {:induction false} FindSpeakerIsLeftmost(s: string, from: nat)
    requires from <= |s|
    ensures FindSpeaker(s, from).Some? ==> NoSpeakerIn(s, from, FindSpeaker(s, from).value.start)
    ensures FindSpeaker(s, from).None? ==> NoSpeakerIn(s, from, |s|) && SpeakerAt(s, |s|).None?
    decreases |s| - from
  {
    if SpeakerAt(s, from).None? && from < |s| {
      FindSpeakerIsLeftmost(s, from + 1);
      FindSpeakerStep(s, from);
    }
  }

  /** Where nothing matches at `from`, the search goes on from `from + 1`. */
  lemma FindSpeakerStep(s: string, from: nat)
    requires from < |s| && SpeakerAt(s, from).None?
    ensures FindSpeaker(s, from) == FindSpeaker(s, from + 1)
    ensures FindSpeaker(s, from).Some? ==> from < FindSpeaker(s, from).value.start
    ensures forall b :: from < b <= |s| && NoSpeakerIn(s, from + 1, b) ==> NoSpeakerIn(s, from, b)
  {
  }

  /** `re.split(pattern, s[from..], maxsplit=budget)`: the text between
      matches alternating with each match's group. */
  function SplitSpeaker(s: string, from: nat, budget: nat): (r: seq<string>)
    requires from <= |s|
    ensures 1 <= |r| <= 2 * budget + 1
    ensures FindSpeaker(s, from).None? ==> r == [s[from..]]
    decreases budget
  {
    if budget == 0 then [s[from..]]
    else match FindSpeaker(s, from)
      case None => [s[from..]]
      case Some(m) => [s[from..m.start], s[m.open..m.close]] + SplitSpeaker(s, m.end, budget - 1)
  }

  predicate IsSemicolon(c: char) { c == ';' }

  /** `re.sub(";$", "", x.strip())`: strip, then drop one trailing `;`. */
  function DropSemicolon(x: string): string
  {
    DropLastIn(Strip(x), IsSemicolon)
  }

  /** What a part becomes, `re.sub(";$", "", x.strip()).strip()`. */
  function Tidy(x: string): string
  {
    Strip(DropSemicolon(x))
  }

  lemma TidyKeepsText(x: string)
    ensures DropSemicolon(x) != [] ==> Tidy(x) != []
  {
    var c := DropSemicolon(x);
    if c != [] {
      assert !IsWs(c[0]);
      assert StripLeft(c) == c;
    }
  }

  /** A text value of the result: a non-empty, stripped string. */
  predicate IsText(v: PyVal)
  {
    v.PyStr? && v.s != [] && Stripped(v.s)
  }

  /** One part of the comprehension `[x.strip() for x in splitted if x]`:
      kept, stripped, when it is not empty once its `;` is dropped. */
  function Keep(x: string): (r: seq<PyVal>)
    ensures |r| <= 1 && forall j :: 0 <= j < |r| ==> IsText(r[j])
  {
    TidyKeepsText(x);
    if DropSemicolon(x) == [] then [] else [PyStr(Tidy(x))]
  }

  /** The comprehension over all parts. */
  function KeepParts(parts: seq<string>): (r: seq<PyVal>)
    ensures |r| <= |parts|
    ensures AllText(r)
  {
    if parts == [] then [] else Keep(parts[0]) + KeepParts(parts[1..])
  }

  /** `extract_spokesperson`: the tidied, non-empty parts of the split, with
      `None` appended when exactly one is left. */
  function ExtractSpokesperson(s: string): (r: seq<PyVal>)
    ensures |r| <= 5 && |r| != 1
    ensures forall j :: 0 <= j < |r| && r[j] != PyNone ==> IsText(r[j])
    ensures forall j :: 0 <= j < |r| && r[j] == PyNone ==> j == 1 && |r| == 2
    ensures forall j :: 0 <= j < |r| ==> r[j].PyStr? || r[j] == PyNone
  {
    Finish(SplitSpeaker(s, 0, 2))
  }

  /** Texts only. */
  predicate AllText(r: seq<PyVal>) { forall j :: 0 <= j < |r| ==> IsText(r[j]) }

  /** Texts, except for a `None` in second place of a pair, and never a
      single value. */
  predicate FinishedRow(r: seq<PyVal>)
  {
    && |r| != 1
    && (forall j :: 0 <= j < |r| && r[j] != PyNone ==> IsText(r[j]))
    && (forall j :: 0 <= j < |r| && r[j] == PyNone ==> j == 1 && |r| == 2)
  }

  /** The two comprehensions and the `None` padding applied to the parts. */
  function Finish(parts: seq<string>): (r: seq<PyVal>)
    ensures |r| <= |parts| || (|parts| == 0 && r == []) || |r| == 2
    ensures FinishedRow(r)
  {
    var kept := KeepParts(parts);
    if |kept| == 1 then PadOne(kept) else AllTextFinished(kept); kept
  }

  lemma AllTextFinished(r: seq<PyVal>)
    requires AllText(r) && |r| != 1
    ensures FinishedRow(r)
  {
  }

  /** A single text padded with `None`. */
  function PadOne(kept: seq<PyVal>): (r: seq<PyVal>)
    requires |kept| == 1 && AllText(kept)
    ensures r == [kept[0], PyNone] && FinishedRow(r)
  {
    kept + [PyNone]
  }

  /** A line with no annotation is its own tidied text, with no speaker. */
  lemma NoAnnotation(s: string)
    requires forall i :: 0 <= i < |s| ==> !HasPrefix(s[i..], MARKER)
    ensures DropSemicolon(s) != [] ==> ExtractSpokesperson(s) == [PyStr(Tidy(s)), PyNone]
    ensures DropSemicolon(s) == [] ==> ExtractSpokesperson(s) == []
  {
    assert FindSpeaker(s, 0).None? by {
      forall i | 0 <= i <= |s| ensures SpeakerAt(s, i).None? {
        if i == |s| { assert !HasPrefix(s[i..], MARKER); }
      }
    }
    assert s[0..] == s;
  }

  /** A run of whitespace followed by a dash: what the optional
      `\s+?[-–—]` would take. */
  predicate DashLead(x: string)
  {
    var w := WsRun(x, 0);
    w >= 1 && w < |x| && x[w] in DASHES
  }

  /** The marker cannot begin inside text that does not contain it and
      reach into a marker placed after that text. */
  lemma MarkerOnlyAtBoundary(t: string, rest: string, i: nat)
    requires HasPrefix(rest, MARKER) && i < |t|
    requires forall k :: 0 <= k < |t| ==> !HasPrefix(t[k..], MARKER)
    ensures !HasPrefix((t + rest)[i..], MARKER)
  {
    var s := t + rest;
    if i + |MARKER| <= |t| {
      assert s[i..][..|MARKER|] == t[i..][..|MARKER|];
    } else if i + |MARKER| <= |s| {
      var k := |t| - i;
      assert s[i..][..|MARKER|][k] == s[|t|] == rest[0] == '(';
      assert MARKER[k] != '(';
    }
  }

  /** `T(Доповідач – N)`, with the dash and its leading space optional:
      the text before the annotation and the name inside it, tidied. */
  lemma OneAnnotation(t: string, d: string, n: string)
    requires forall k :: 0 <= k < |t| ==> !HasPrefix(t[k..], MARKER)
    requires DashPrefix(d)
    requires n != [] && forall j :: 0 <= j < |n| ==> n[j] != ')' && n[j] != '\n'
    requires d == "" ==> !DashLead(n)
    requires DropSemicolon(n) != []
    ensures DropSemicolon(t) != [] ==>
      ExtractSpokesperson(t + MARKER + d + n + ")") == [PyStr(Tidy(t)), PyStr(Tidy(n))]
    ensures DropSemicolon(t) == [] ==>
      ExtractSpokesperson(t + MARKER + d + n + ")") == [PyStr(Tidy(n)), PyNone]
  {
    OneAnnotationParts(t, d, n);
    if DropSemicolon(t) != [] { FinishBoth(t, n); } else { FinishNameOnly(t, n); }
  }

  /** The parts of `T(Доповідач – N)`. */
  lemma OneAnnotationParts(t: string, d: string, n: string)
    requires forall k :: 0 <= k < |t| ==> !HasPrefix(t[k..], MARKER)
    requires DashPrefix(d)
    requires n != [] && forall j :: 0 <= j < |n| ==> n[j] != ')' && n[j] != '\n'
    requires d == "" ==> !DashLead(n)
    ensures SplitSpeaker(t + MARKER + d + n + ")", 0, 2) == [t, n, ""]
  {
    Regroup(t, MARKER, d, n, ")");
    OneAnnotationSplit(t, d, n);
  }

  /** The comprehension over three parts is the three parts kept one by one. */
  lemma KeepThree(x: string, y: string, z: string)
    ensures KeepParts([x, y, z]) == Keep(x) + (Keep(y) + Keep(z))
  {
    TailOf3(x, y, z);
    KeepStep([x, y, z]);
    TailOf2(y, z);
    KeepStep([y, z]);
    KeepLast([z]);
  }

  lemma TailOf3<T>(x: T, y: T, z: T)
    ensures [x, y, z][0] == x && [x, y, z][1..] == [y, z]
  {
  }

  lemma TailOf2<T>(y: T, z: T)
    ensures [y, z][0] == y && [y, z][1..] == [z]
  {
  }

  lemma Regroup<T>(t: seq<T>, a: seq<T>, b: seq<T>, c: seq<T>, d: seq<T>)
    ensures t + (a + b + c + d) == t + a + b + c + d
  {
  }

  lemma KeepStep(parts: seq<string>)
    requires parts != []
    ensures KeepParts(parts) == Keep(parts[0]) + KeepParts(parts[1..])
  {
  }

  lemma KeepLast(parts: seq<string>)
    requires |parts| == 1
    ensures KeepParts(parts) == Keep(parts[0])
  {
    assert parts[1..] == [];
    assert KeepParts(parts) == Keep(parts[0]) + KeepParts(parts[1..]);
  }

  lemma KeepEmpty()
    ensures Keep("") == []
  {
    assert Strip("") == "";
  }

  lemma FinishBoth(t: string, n: string)
    requires DropSemicolon(t) != [] && DropSemicolon(n) != []
    ensures Finish([t, n, ""]) == [PyStr(Tidy(t)), PyStr(Tidy(n))]
  {
    KeepThree(t, n, "");
    KeepEmpty();
    var a := PyStr(Tidy(t));
    var b := PyStr(Tidy(n));
    assert KeepParts([t, n, ""]) == [a] + ([b] + []);
    PairOf(a, b);
  }

  lemma FinishNameOnly(t: string, n: string)
    requires DropSemicolon(t) == [] && DropSemicolon(n) != []
    ensures Finish([t, n, ""]) == [PyStr(Tidy(n)), PyNone]
  {
    KeepThree(t, n, "");
    KeepEmpty();
    var b := PyStr(Tidy(n));
    assert KeepParts([t, n, ""]) == [] + ([b] + []);
    SingleOf(b);
  }

  lemma PairOf<T>(a: T, b: T)
    ensures [a] + ([b] + []) == [a, b]
  {
  }

  lemma SingleOf<T>(b: T)
    ensures [] + ([b] + []) == [b]
  {
  }

  /** The split of `T(Доповідач – N)` is `[T, N, ""]`. */
  lemma OneAnnotationSplit(t: string, d: string, n: string)
    requires forall k :: 0 <= k < |t| ==> !HasPrefix(t[k..], MARKER)
    requires DashPrefix(d)
    requires n != [] && forall j :: 0 <= j < |n| ==> n[j] != ')' && n[j] != '\n'
    requires d == "" ==> !DashLead(n)
    ensures SplitSpeaker(t + (MARKER + d + n + ")"), 0, 2) == [t, n, ""]
  {
    var s := t + (MARKER + d + n + ")");
    var m := OneAnnotationFound(t, d, n);
    OneAnnotationPieces(t, d, n);
    assert s[..m.start] == t && s[m.open..m.close] == n;
    SplitOnce(s, m);
  }

  /** The annotation after `T` is the first match. */
  lemma OneAnnotationFound(t: string, d: string, n: string) returns (m: Span)
    requires forall k :: 0 <= k < |t| ==> !HasPrefix(t[k..], MARKER)
    requires DashPrefix(d)
    requires n != [] && forall j :: 0 <= j < |n| ==> n[j] != ')' && n[j] != '\n'
    requires d == "" ==> !DashLead(n)
    ensures FindSpeaker(t + (MARKER + d + n + ")"), 0) == Some(m)
    ensures m.start == |t| && m.open == |t| + |MARKER| + |d| && m.close == m.open + |n|
    ensures m.end == m.close + 1 == |t + (MARKER + d + n + ")")|
  {
    var rest := MARKER + d + n + ")";
    var s := t + rest;
    assert rest[..|MARKER|] == MARKER;
    forall i | 0 <= i < |t| ensures SpeakerAt(s, i).None? {
      MarkerOnlyAtBoundary(t, rest, i);
    }
    m := AnnotationSpan(t, d, n);
    FindFirst(s, 0, m);
  }

  lemma OneAnnotationPieces(t: string, d: string, n: string)
    ensures var s := t + (MARKER + d + n + ")");
      var o := |t| + |MARKER| + |d|;
      s[..|t|] == t && s[o..o + |n|] == n
  {
    var rest := MARKER + d + n + ")";
    var s := t + rest;
    var o := |t| + |MARKER| + |d|;
    forall j | 0 <= j < |n| ensures s[o..o + |n|][j] == n[j] {
      assert s[o + j] == rest[|MARKER| + |d| + j];
    }
  }

  /** A line whose only annotation ends it splits into the text before the
      annotation, its group and the empty rest. */
  lemma SplitOnce(s: string, m: Span)
    requires FindSpeaker(s, 0) == Some(m) && m.end == |s|
    ensures SplitSpeaker(s, 0, 2) == [s[..m.start], s[m.open..m.close], ""]
  {
    LastPart(s, m.end);
    assert SplitSpeaker(s, 0, 2) == [s[0..m.start], s[m.open..m.close]] + SplitSpeaker(s, m.end, 1);
    assert s[0..m.start] == s[..m.start];
    Snoc2(s[..m.start], s[m.open..m.close], "");
  }

  lemma Snoc2<T>(a: T, b: T, c: T)
    ensures [a, b] + [c] == [a, b, c]
  {
  }

  /** `re.search` finds the first position where the pattern matches. */
  lemma {:induction false} FindFirst(s: string, from: nat, m: Span)
    requires from <= m.start <= |s| && SpeakerAt(s, m.start) == Some(m)
    requires forall i :: from <= i < m.start ==> SpeakerAt(s, i).None?
    ensures FindSpeaker(s, from) == Some(m)
    decreases m.start - from
  {
    if from < m.start { FindFirst(s, from + 1, m); }
  }

  /** Nothing is split off the end of the string. */
  lemma LastPart(s: string, from: nat)
    requires from == |s|
    ensures SplitSpeaker(s, from, 1) == [""]
  {
    assert !HasPrefix(s[from..], MARKER);
    assert FindSpeaker(s, from).None?;
  }

  /** What may stand between the marker and the name: nothing, or a space
      and a dash. */
  predicate DashPrefix(d: string)
  {
    d == "" || (|d| == 2 && d[0] == ' ' && d[1] in DASHES)
  }

  /** Where the annotation of `OneAnnotation` matches. */
  lemma AnnotationSpan(t: string, d: string, n: string) returns (m: Span)
    requires DashPrefix(d)
    requires n != [] && forall j :: 0 <= j < |n| ==> n[j] != ')' && n[j] != '\n'
    requires d == "" ==> !DashLead(n)
    ensures SpeakerAt(t + (MARKER + d + n + ")"), |t|) == Some(m)
    ensures m.open == |t| + |MARKER| + |d| && m.close == m.open + |n| && m.end == m.close + 1
  {
    var s := t + (MARKER + d + n + ")");
    AnnotationLayout(t, d, n);
    var p0 := |t| + |MARKER|;
    var e := p0 + |d| + |n|;
    if d == "" {
      PlainAnnotation(s, |t|, n);
    } else {
      DashedAnnotation(s, |t|, e);
    }
    m := Span(|t|, p0 + |d|, e, e + 1);
  }

  lemma DashedAnnotation(s: string, i: nat, e: nat)
    requires i + |MARKER| + 2 < e < |s| && HasPrefix(s[i..], MARKER)
    requires s[i + |MARKER|] == ' ' && s[i + |MARKER| + 1] in DASHES && s[e] == ')'
    requires forall j :: i + |MARKER| + 2 <= j < e ==> s[j] != ')' && s[j] != '\n'
    ensures SpeakerAt(s, i) == Some(Span(i, i + |MARKER| + 2, e, e + 1))
  {
    var p0 := i + |MARKER|;
    assert WsRun(s, p0 + 1) == 0;
    assert WsRun(s, p0) == 1;
    SpeakerAtDashed(s, i, e);
  }

  lemma PlainAnnotation(s: string, i: nat, n: string)
    requires i + |MARKER| <= |s| && HasPrefix(s[i..], MARKER)
    requires s[i + |MARKER|..] == n + ")" && !DashLead(n)
    requires n != [] && forall j :: i + |MARKER| <= j < i + |MARKER| + |n| ==> s[j] != ')' && s[j] != '\n'
    ensures SpeakerAt(s, i) == Some(Span(i, i + |MARKER|, i + |MARKER| + |n|, i + |MARKER| + |n| + 1))
  {
    var p0 := i + |MARKER|;
    WsRunShift(s, n + ")", p0);
    WsRunPrefix(n, ")");
    NoDashTaken(s, p0, n);
    assert s[p0 + |n|] == (n + ")")[|n|];
    SpeakerAtPlain(s, i, p0 + |n|);
  }

  /** Where the pieces of `T(Доповідач – N)` lie. */
  lemma AnnotationLayout(t: string, d: string, n: string)
    requires DashPrefix(d)
    requires n != [] && forall j :: 0 <= j < |n| ==> n[j] != ')' && n[j] != '\n'
    ensures var s := t + (MARKER + d + n + ")");
      var p := |t| + |MARKER| + |d|;
      && HasPrefix(s[|t|..], MARKER)
      && s[p + |n|] == ')'
      && (forall j :: p <= j < p + |n| ==> s[j] != ')' && s[j] != '\n')
      && (d == "" ==> s[|t| + |MARKER|..] == n + ")")
      && (d != "" ==> s[|t| + |MARKER|] == ' ' && s[|t| + |MARKER| + 1] == d[1])
  {
    var u := MARKER + d + n + ")";
    var s := t + u;
    var p := |t| + |MARKER| + |d|;
    assert s[|t|..] == u;
    assert u[..|MARKER|] == MARKER;
    forall j | p <= j < p + |n| ensures s[j] == n[j - p] {
      assert s[j] == u[j - |t|];
    }
  }

  /** Text that does not open with whitespace and a dash, placed right
      after the marker, leaves the optional dash group unmatched. */
  lemma NoDashTaken(s: string, p0: nat, n: string)
    requires p0 <= |s| && s[p0..] == n + ")" && !DashLead(n)
    requires WsRun(s, p0) == WsRun(n, 0)
    ensures !DashAt(s, p0)
  {
    var w := WsRun(n, 0);
    if w < |n| {
      assert s[p0 + w] == (n + ")")[w] == n[w];
    } else {
      assert s[p0 + w] == (n + ")")[w] == ')';
    }
  }

  /** The optional `\s+?[-–—]` matches after the marker ending at `p0`. */
  predicate DashAt(s: string, p0: nat)
    requires p0 <= |s|
  {
    var w := WsRun(s, p0);
    w >= 1 && p0 + w < |s| && s[p0 + w] in DASHES
  }

  /** The pattern at `i` when the dash group matches. */
  lemma SpeakerAtDashed(s: string, i: nat, e: nat)
    requires i + |MARKER| <= |s| && HasPrefix(s[i..], MARKER) && DashAt(s, i + |MARKER|)
    requires i + |MARKER| + WsRun(s, i + |MARKER|) + 1 < e < |s| && s[e] == ')'
    requires forall j :: i + |MARKER| + WsRun(s, i + |MARKER|) + 1 <= j < e ==> s[j] != ')' && s[j] != '\n'
    ensures SpeakerAt(s, i) == Some(Span(i, i + |MARKER| + WsRun(s, i + |MARKER|) + 1, e, e + 1))
  {
    var p := i + |MARKER| + WsRun(s, i + |MARKER|) + 1;
    CloseAtFirst(s, p, p + 1, e);
  }

  /** The pattern at `i` when the dash group does not match. */
  lemma SpeakerAtPlain(s: string, i: nat, e: nat)
    requires i + |MARKER| <= |s| && HasPrefix(s[i..], MARKER) && !DashAt(s, i + |MARKER|)
    requires i + |MARKER| < e < |s| && s[e] == ')'
    requires forall j :: i + |MARKER| <= j < e ==> s[j] != ')' && s[j] != '\n'
    ensures SpeakerAt(s, i) == Some(Span(i, i + |MARKER|, e, e + 1))
  {
    var p := i + |MARKER|;
    CloseAtFirst(s, p, p + 1, e);
  }

  /** The lazy group is closed by the first `)`. */
  lemma {:induction false} CloseAtFirst(s: string, p: nat, e0: nat, e: nat)
    requires p < e0 <= e < |s| && s[e] == ')'
    requires forall j :: p <= j < e ==> s[j] != ')' && s[j] != '\n'
    ensures CloseFrom(s, p, e0) == Some(e)
    decreases e - e0
  {
    if e0 < e { CloseAtFirst(s, p, e0 + 1, e); }
  }

  lemma WsRunShift(s: string, u: string, i: nat)
    requires i <= |s| && s[i..] == u
    ensures WsRun(s, i) == WsRun(u, 0)
    decreases |s| - i
  {
    if i < |s| {
      assert s[i] == u[0];
      assert s[i + 1..] == u[1..];
      WsRunShift(s, u[1..], i + 1);
      WsRunShift(u, u[1..], 1);
    }
  }

  lemma WsRunPrefix(n: string, tail: string)
    requires tail != [] && !IsWs(tail[0])
    ensures WsRun(n + tail, 0) == WsRun(n, 0)
  {
    WsRunOfConcat(n, tail, 0);
  }

  lemma WsRunOfConcat(n: string, tail: string, i: nat)
    requires i <= |n| && tail != [] && !IsWs(tail[0])
    ensures WsRun(n + tail, i) == WsRun(n, i)
    decreases |n| - i
  {
    if i < |n| {
      assert (n + tail)[i] == n[i];
      WsRunOfConcat(n, tail, i + 1);
    } else {
      assert (n + tail)[i] == tail[0];
    }
  }

  /** Splitting stops after two annotations: whatever follows the second
      one, further annotations included, is the last part unsplit. */
  lemma TwoSplitsOnly(s: string, m1: Span, m2: Span)
    requires FindSpeaker(s, 0) == Some(m1) && m1.end <= |s| && FindSpeaker(s, m1.end) == Some(m2)
    ensures var r := SplitSpeaker(s, 0, 2);
      |r| == 5 && r[0] == s[..m1.start] && r[1] == s[m1.open..m1.close]
      && r[2] == s[m1.end..m2.start] && r[3] == s[m2.open..m2.close] && r[4] == s[m2.end..]
  {
    var r1 := SplitSpeaker(s, m1.end, 1);
    assert r1 == [s[m1.end..m2.start], s[m2.open..m2.close]] + SplitSpeaker(s, m2.end, 0);
    assert SplitSpeaker(s, 0, 2) == [s[0..m1.start], s[m1.open..m1.close]] + r1;
  }
}
