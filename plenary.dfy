/** The plenary agenda (`extract_vrp_project`, `process_vrp_questions`):
    every text node of the page becomes one cleaned line; the underlined
    paragraphs that start with a digit are the titles; the lines after a
    title are its questions; the questions are then re-joined, re-split on
    their `N) ` numbers and tidied, and very short titles absorb their first
    question. The XPath queries become the two input sequences. */
module Plenary {
  import opened Text
  import opened Agenda

  // ---------------------------------------------------------------------------
  // Cleaning

  /** `[\s:.]`. */
  predicate LineTrail(c: char) { IsWs(c) || c == ':' || c == '.' }

  /** `re.sub("\s+", " ", x).strip()`. */
  function Clean(x: string): (r: string)
    ensures Stripped(r)
  {
    Strip(Collapse(x))
  }

  /** `re.sub(r'[\s:.]$', '', x).strip()` on a cleaned `x`; a title that
      starts with a digit still does. */
  function Trim(x: string): (r: string)
    requires Stripped(x)
    ensures Stripped(r)
    ensures StartsWithDigit(x) ==> StartsWithDigit(r)
  {
    assert x == [] || !IsWs(x[|x| - 1]);
    var d := DropLastIn(x, LineTrail);
    assert StartsWithDigit(x) ==> d != [] && d[0] == x[0];
    StripKeepsHead(d);
    Strip(d)
  }

  /** Stripping keeps a string that starts with a non-space non-empty, with
      the same first character. */
  lemma StripKeepsHead(s: string)
    ensures s != [] && !IsWs(s[0]) ==> Strip(s) != [] && Strip(s)[0] == s[0]
  {
    if s != [] && !IsWs(s[0]) {
      assert StripLeft(s) == s;
    }
  }

  /** `[re.sub("\s+", " ", x).strip() for x in texts]`. */
  function CleanAll(texts: seq<string>): seq<string>
  {
    seq(|texts|, j requires 0 <= j < |texts| => Clean(texts[j]))
  }

  /** `[re.sub(r'[\s:.]$', '', x).strip() for x in cs]` over cleaned texts. */
  function TrimAll(cs: seq<string>): seq<string>
    requires forall j :: 0 <= j < |cs| ==> Stripped(cs[j])
  {
    seq(|cs|, j requires 0 <= j < |cs| && Stripped(cs[j]) => Trim(cs[j]))
  }

  /** `[x for x in cs if DIGIT_SECTION_RE.search(x)]` over cleaned texts. */
  function Digital(cs: seq<string>): (r: seq<string>)
    requires forall j :: 0 <= j < |cs| ==> Stripped(cs[j])
    ensures |r| <= |cs|
    ensures forall j :: 0 <= j < |r| ==> Stripped(r[j]) && StartsWithDigit(r[j])
  {
    if cs == [] then []
    else (if StartsWithDigit(cs[0]) then [cs[0]] else []) + Digital(cs[1..])
  }

  /** `clean_titles`: the cleaned candidates that start with a digit,
      trimmed. */
  function CleanTitles(texts: seq<string>): (r: seq<string>)
    ensures |r| <= |texts|
    ensures forall j :: 0 <= j < |r| ==> Stripped(r[j]) && StartsWithDigit(r[j])
  {
    TrimAll(Digital(CleanAll(texts)))
  }

  /** `text`: the cleaned lines, trimmed, the empty ones dropped. */
  function CleanLines(texts: seq<string>): (r: seq<string>)
    ensures |r| <= |texts|
    ensures forall j :: 0 <= j < |r| ==> r[j] != [] && Stripped(r[j])
  {
    NonEmpty(TrimAll(CleanAll(texts)))
  }

  // ---------------------------------------------------------------------------
  // The flat scan

  /** The scan's state: the topics emitted so far and the open one, `q`
      (`first_line` is true exactly when `q` is set). */
  datatype Scan = Scan(done: seq<VrpTopic>, open: Option<VrpTopic>)

  const START: Scan := Scan([], None)

  function Close(o: Option<VrpTopic>): (r: seq<VrpTopic>)
    ensures o.None? ==> r == []
    ensures o.Some? ==> r == [o.value]
  {
    if o.Some? then [o.value] else []
  }

  /** One line of the loop. A title closes the open topic and opens a new
      one, which is emitted at once when the title equals the page's last
      line; any other line joins the open topic, or is skipped before the
      first title. */
  function Step(st: Scan, line: string, titles: seq<string>, last: string): (r: Scan)
    ensures st.done <= r.done
    ensures r.open == Some(VrpTopic(line, [])) <==> line in titles
    ensures line in titles ==> |r.done| == |st.done| + |Close(st.open)| + (if line == last then 1 else 0)
    ensures line in titles ==> r.done[..|st.done| + |Close(st.open)|] == st.done + Close(st.open)
    ensures line !in titles ==> r.done == st.done
    ensures TitledBy(st, titles) ==> TitledBy(r, titles)
  {
    if line in titles then
      Scan(st.done + Close(st.open) + (if line == last then [VrpTopic(line, [])] else []), Some(VrpTopic(line, [])))
    else if st.open.None? then st
    else Scan(st.done, Some(st.open.value.(questions := st.open.value.questions + [line])))
  }

  /** A title equal to the page's last line is emitted at once, with no
      questions; any other line joins the open topic as its last question,
      and is skipped while no title has been seen. */
  lemma StepJoins(st: Scan, line: string, titles: seq<string>, last: string)
    ensures line in titles && line == last ==>
      var r := Step(st, line, titles, last); r.done != [] && r.done[|r.done| - 1] == VrpTopic(line, [])
    ensures line !in titles && st.open.Some? ==>
      Step(st, line, titles, last).open == Some(VrpTopic(st.open.value.title, st.open.value.questions + [line]))
    ensures line !in titles && st.open.None? ==> Step(st, line, titles, last) == st
  {
  }

  function Run(st: Scan, lines: seq<string>, titles: seq<string>, last: string): (r: Scan)
    ensures st.done <= r.done
    ensures TitledBy(st, titles) ==> TitledBy(r, titles)
    decreases |lines|
  {
    if lines == [] then st else Run(Step(st, lines[0], titles, last), lines[1..], titles, last)
  }

  /** The topics the loop of `extract_vrp_project` collects. */
  function Emitted(text: seq<string>, titles: seq<string>): (r: seq<VrpTopic>)
    ensures AllTitled(r, titles)
  {
    if text == [] then [] else Run(START, text, titles, text[|text| - 1]).done
  }

  /** The loop over `text`, with `q` and `first_line` as in the source. */
  method FlatScan(text: seq<string>, titles: seq<string>) returns (questions: seq<VrpTopic>)
    ensures questions == Emitted(text, titles)
  {
    questions := [];
    var q: Option<VrpTopic> := None;
    var firstLine := false;
    if text == [] {
      return;
    }
    var last := text[|text| - 1];
    var i := 0;
    while i < |text|
      invariant 0 <= i <= |text|
      invariant firstLine <==> q.Some?
      invariant Run(Scan(questions, q), text[i..], titles, last) == Run(START, text, titles, last)
    {
      var line := text[i];
      ghost var st := Scan(questions, q);
      RunHead(st, text, i, titles, last);
      if line in titles {
        firstLine := true;
        if q.Some? {
          questions := questions + [q.value];
        }
        q := Some(VrpTopic(line, []));
        if line == last {
          questions := questions + [q.value];
        }
      } else if firstLine {
        q := Some(q.value.(questions := q.value.questions + [line]));
      }
      assert Scan(questions, q) == Step(st, line, titles, last);
      i := i + 1;
    }
  }

  /** Running from position `i` takes one step on the line there. */
  lemma RunHead(st: Scan, text: seq<string>, i: nat, titles: seq<string>, last: string)
    requires i < |text|
    ensures Run(st, text[i..], titles, last) == Run(Step(st, text[i], titles, last), text[i + 1..], titles, last)
  {
    assert text[i..][0] == text[i] && text[i..][1..] == text[i + 1..];
  }

  /** Running over two pieces runs over the first, then the second. */
  lemma {:induction false} RunAppend(st: Scan, a: seq<string>, b: seq<string>, titles: seq<string>, last: string)
    ensures Run(st, a + b, titles, last) == Run(Run(st, a, titles, last), b, titles, last)
    decreases |a|
  {
    if a == [] {
      assert a + b == b;
    } else {
      assert (a + b)[0] == a[0];
      assert (a + b)[1..] == a[1..] + b;
      RunAppend(Step(st, a[0], titles, last), a[1..], b, titles, last);
    }
  }

  /** Lines before the first title are discarded. */
  lemma {:induction false} PrefixDiscarded(p: seq<string>, titles: seq<string>, last: string)
    requires forall j :: 0 <= j < |p| ==> p[j] !in titles
    ensures Run(START, p, titles, last) == START
    decreases |p|
  {
    if p != [] {
      PrefixDiscarded(p[1..], titles, last);
    }
  }

  /** Every topic carries one of the titles. */
  predicate AllTitled(ts: seq<VrpTopic>, titles: seq<string>)
  {
    forall j :: 0 <= j < |ts| ==> ts[j].title in titles
  }

  /** Every topic emitted or open carries one of the titles. */
  predicate TitledBy(st: Scan, titles: seq<string>)
  {
    && (forall j :: 0 <= j < |st.done| ==> st.done[j].title in titles)
    && (st.open.Some? ==> st.open.value.title in titles)
  }

  /** The lines after a title open a topic holding exactly those lines. */
  lemma {:induction false} BodyJoinsTopic(t: string, body: seq<string>, acc: seq<string>, done: seq<VrpTopic>, titles: seq<string>, last: string)
    requires forall j :: 0 <= j < |body| ==> body[j] !in titles
    ensures Run(Scan(done, Some(VrpTopic(t, acc))), body, titles, last) == Scan(done, Some(VrpTopic(t, acc + body)))
    decreases |body|
  {
    if body == [] {
      assert acc + body == acc;
    } else {
      assert acc + body == (acc + [body[0]]) + body[1..];
      BodyJoinsTopic(t, body[1..], acc + [body[0]], done, titles, last);
    }
  }

  /** A title followed by lines that are not titles: the open topic is
      emitted, and a new one opens with exactly those lines. */
  lemma Segment(st: Scan, t: string, body: seq<string>, titles: seq<string>, last: string)
    requires t in titles && t != last
    requires forall j :: 0 <= j < |body| ==> body[j] !in titles
    ensures Run(st, [t] + body, titles, last) == Scan(st.done + Close(st.open), Some(VrpTopic(t, body)))
  {
    RunAppend(st, [t], body, titles, last);
    assert Run(st, [t], titles, last) == Scan(st.done + Close(st.open), Some(VrpTopic(t, [])));
    BodyJoinsTopic(t, body, [], st.done + Close(st.open), titles, last);
    assert [] + body == body;
  }

  /** When the page does not end on a title, the last topic is never
      emitted: the result is what was emitted before its title, plus the
      topic that title closed. */
  lemma LastTopicDropped(p: seq<string>, t: string, body: seq<string>, titles: seq<string>)
    requires t in titles && body != []
    requires forall j :: 0 <= j < |body| ==> body[j] !in titles
    ensures var st := Run(START, p, titles, body[|body| - 1]);
      Emitted(p + [t] + body, titles) == st.done + Close(st.open)
  {
    var text := p + [t] + body;
    var last := body[|body| - 1];
    assert text[|text| - 1] == last;
    assert t != last;
    assert text == p + ([t] + body);
    RunAppend(START, p, [t] + body, titles, last);
    Segment(Run(START, p, titles, last), t, body, titles, last);
  }

  /** When the page ends on a title, that title is emitted as a topic with
      no questions, after the topic it closes. */
  lemma LastTitleEmitted(p: seq<string>, t: string, titles: seq<string>)
    requires t in titles
    ensures var st := Run(START, p, titles, t);
      Emitted(p + [t], titles) == st.done + Close(st.open) + [VrpTopic(t, [])]
  {
    RunAppend(START, p, [t], titles, t);
  }

  // ---------------------------------------------------------------------------
  // process_vrp_questions

  /** The phrase removed from the joined questions. */
  const NOISE: string := "- у зв’язку з поданням заяви про відставку"

  /** `re.match("^\d+$", x)`: digits, and `$` also accepts one final newline. */
  predicate IsNumber(x: string)
  {
    || (|x| > 0 && AllDigits(x))
    || (|x| > 1 && x[|x| - 1] == '\n' && AllDigits(x[..|x| - 1]))
  }

  /** A question line that is only a number gets back its `)`. */
  function Restore(qs: seq<string>): (r: seq<string>)
    ensures |r| == |qs|
    ensures forall j :: 0 <= j < |qs| ==> r[j] == if IsNumber(qs[j]) then qs[j] + ")" else qs[j]
  {
    if qs == [] then [] else [if IsNumber(qs[0]) then qs[0] + ")" else qs[0]] + Restore(qs[1..])
  }

  /** `s.replace(pat, "")`: every occurrence, left to right, without overlap. */
  function RemoveAll(s: string, pat: string): (r: string)
    requires pat != []
    ensures |r| <= |s|
    decreases |s|
  {
    if |s| < |pat| then s
    else if s[..|pat|] == pat then RemoveAll(s[|pat|..], pat)
    else [s[0]] + RemoveAll(s[1..], pat)
  }

  /** With no occurrence, nothing is removed. */
  lemma {:induction false} RemoveAbsent(s: string, pat: string)
    requires pat != []
    requires forall i :: 0 <= i <= |s| ==> !HasPrefix(s[i..], pat)
    ensures RemoveAll(s, pat) == s
    decreases |s|
  {
    if |s| >= |pat| {
      assert s[0..] == s;
      assert !HasPrefix(s, pat);
      forall i | 0 <= i <= |s| - 1 ensures !HasPrefix(s[1..][i..], pat) {
        assert s[1..][i..] == s[i + 1..];
      }
      RemoveAbsent(s[1..], pat);
    }
  }

  /** `\d+?\) ` at the start of `u`: a run of digits (the lazy `+?` can only
      stop where `)` follows, which is where the run ends), `)` and a space.
      The length of the match. */
  function Marker(u: string): (r: Option<nat>)
    ensures r.Some? ==> 3 <= r.value <= |u|
  {
    var k := DigitRun(u, 0);
    if k >= 1 && k + 2 <= |u| && u[k] == ')' && u[k + 1] == ' ' then Some(k + 2) else None
  }

  /** `re.split("\d+?\) ", s)` from the piece that starts at `start`, the
      search having reached `i`. */
  function SplitFrom(s: string, start: nat, i: nat): (r: seq<string>)
    requires start <= i <= |s|
    ensures |r| >= 1
    decreases |s| - i
  {
    if i == |s| then [s[start..]]
    else match Marker(s[i..])
      case Some(k) => [s[start..i]] + SplitFrom(s, i + k, i + k)
      case None => SplitFrom(s, start, i + 1)
  }

  /** No piece holds a marker. */
  function SplitNumbered(s: string): (r: seq<string>)
    ensures |r| >= 1
    ensures forall q :: 0 <= q < |r| ==> NoMarker(r[q])
  {
    SplitFromNoMarker(s, 0, 0);
    SplitFrom(s, 0, 0)
  }

  /** `u` is one whole marker. */
  predicate IsMarker(u: string) { Marker(u) == Some(|u|) }

  /** No marker starts anywhere in `u`. */
  predicate NoMarker(u: string) { forall j :: 0 <= j < |u| ==> Marker(u[j..]).None? }

  /** The markers `re.split` cut out, from position `i` on. */
  function MarksFrom(s: string, i: nat): (r: seq<string>)
    requires i <= |s|
    ensures forall k :: 0 <= k < |r| ==> IsMarker(r[k])
    decreases |s| - i
  {
    if i == |s| then []
    else match Marker(s[i..])
      case Some(k) =>
        MarkerOnPrefix(s[i..i + k], s[i..], k);
        [s[i..i + k]] + MarksFrom(s, i + k)
      case None => MarksFrom(s, i + 1)
  }

  function NumberMarks(s: string): (r: seq<string>)
    ensures forall k :: 0 <= k < |r| ==> IsMarker(r[k])
  {
    MarksFrom(s, 0)
  }

  /** The pieces with the markers put back between them. */
  function Interleave(ps: seq<string>, ms: seq<string>): string
    requires |ps| == |ms| + 1
  {
    if ms == [] then ps[0] else ps[0] + ms[0] + Interleave(ps[1..], ms[1..])
  }

  /** Putting the markers back between the pieces gives the string again. */
  lemma SplitNumberedRejoins(s: string)
    ensures |SplitNumbered(s)| == |NumberMarks(s)| + 1
    ensures Interleave(SplitNumbered(s), NumberMarks(s)) == s
  {
    SplitFromRejoins(s, 0, 0);
  }

  lemma {:induction false} SplitFromRejoins(s: string, start: nat, i: nat)
    requires start <= i <= |s|
    ensures |SplitFrom(s, start, i)| == |MarksFrom(s, i)| + 1
    ensures Interleave(SplitFrom(s, start, i), MarksFrom(s, i)) == s[start..]
    decreases |s| - i
  {
    if i == |s| {
      assert Interleave([s[start..]], []) == s[start..];
    } else {
      match Marker(s[i..])
      case Some(k) =>
        SplitFromRejoins(s, i + k, i + k);
        RejoinAtMarker(s, start, i, k);
      case None =>
        SplitFromRejoins(s, start, i + 1);
        SkipNonMarker(s, start, i);
    }
  }

  /** Where no marker starts, the search simply moves on. */
  lemma SkipNonMarker(s: string, start: nat, i: nat)
    requires start <= i < |s| && Marker(s[i..]).None?
    ensures SplitFrom(s, start, i) == SplitFrom(s, start, i + 1)
    ensures MarksFrom(s, i) == MarksFrom(s, i + 1)
  {
  }

  /** `SplitFromRejoins` where a marker of length `k` starts at `i`. */
  lemma RejoinAtMarker(s: string, start: nat, i: nat, k: nat)
    requires start <= i < |s| && Marker(s[i..]) == Some(k)
    requires |SplitFrom(s, i + k, i + k)| == |MarksFrom(s, i + k)| + 1
    requires Interleave(SplitFrom(s, i + k, i + k), MarksFrom(s, i + k)) == s[i + k..]
    ensures |SplitFrom(s, start, i)| == |MarksFrom(s, i)| + 1
    ensures Interleave(SplitFrom(s, start, i), MarksFrom(s, i)) == s[start..]
  {
    var ps, ms := SplitFrom(s, start, i), MarksFrom(s, i);
    var ps', ms' := SplitFrom(s, i + k, i + k), MarksFrom(s, i + k);
    assert ps == [s[start..i]] + ps' && ms == [s[i..i + k]] + ms';
    assert ps[1..] == ps' && ms[1..] == ms';
    assert Interleave(ps, ms) == s[start..i] + s[i..i + k] + s[i + k..];
    assert s[start..] == s[start..i] + s[i..i + k] + s[i + k..];
  }

  /** The pieces from `start` hold no marker, given none starts in `start..i`. */
  lemma {:induction false} SplitFromNoMarker(s: string, start: nat, i: nat)
    requires start <= i <= |s|
    requires forall j :: start <= j < i ==> Marker(s[j..]).None?
    ensures forall q :: 0 <= q < |SplitFrom(s, start, i)| ==> NoMarker(SplitFrom(s, start, i)[q])
    decreases |s| - i
  {
    if i == |s| {
      PieceNoMarker(s, start, i);
    } else {
      match Marker(s[i..])
      case Some(k) =>
        PieceNoMarker(s, start, i);
        SplitFromNoMarker(s, i + k, i + k);
        var ps := SplitFrom(s, start, i);
        assert forall q :: 1 <= q < |ps| ==> ps[q] == SplitFrom(s, i + k, i + k)[q - 1];
      case None =>
        SplitFromNoMarker(s, start, i + 1);
    }
  }

  /** A piece in which no marker of the whole string starts holds none. */
  lemma PieceNoMarker(s: string, a: nat, b: nat)
    requires a <= b <= |s|
    requires forall j :: a <= j < b ==> Marker(s[j..]).None?
    ensures NoMarker(s[a..b])
  {
    var u := s[a..b];
    forall j | 0 <= j < |u| ensures Marker(u[j..]).None? {
      assert u[j..] == s[a + j..b];
      PieceMarker(s, a + j, b);
    }
  }

  /** A marker in a piece is a marker of the whole string. */
  lemma PieceMarker(s: string, a: nat, b: nat)
    requires a <= b <= |s|
    ensures Marker(s[a..b]).Some? ==> Marker(s[a..]) == Marker(s[a..b])
  {
    var u, v := s[a..b], s[a..];
    if Marker(u).Some? {
      assert u[..|u|] == v[..|u|];
      MarkerOnPrefix(v, u, |u|);
    }
  }

  /** Whether a marker starts `v` depends only on the characters it covers. */
  lemma MarkerOnPrefix(u: string, v: string, n: nat)
    requires n <= |u| && n <= |v| && u[..n] == v[..n]
    requires Marker(v).Some? && Marker(v).value <= n
    ensures Marker(u) == Marker(v)
  {
    var k := DigitRun(v, 0);
    DigitRunOnPrefix(u, v, 0, n);
    assert u[k] == u[..n][k] && v[k] == v[..n][k];
    assert u[k + 1] == u[..n][k + 1] && v[k + 1] == v[..n][k + 1];
  }

  /** Digit runs depend only on the characters they cover and the one after. */
  lemma {:induction false} DigitRunOnPrefix(u: string, v: string, i: nat, n: nat)
    requires i < n <= |u| && n <= |v| && u[..n] == v[..n]
    requires i + DigitRun(v, i) < n
    ensures DigitRun(u, i) == DigitRun(v, i)
    decreases n - i
  {
    assert u[i] == u[..n][i] && v[i] == v[..n][i];
    if IsDigit(v[i]) {
      DigitRunOnPrefix(u, v, i + 1, n);
    }
  }

  /** With no marker from `i` on, the rest is one piece. */
  lemma {:induction false} SplitWithoutMarker(s: string, start: nat, i: nat)
    requires start <= i <= |s|
    requires forall j :: i <= j < |s| ==> Marker(s[j..]).None?
    ensures SplitFrom(s, start, i) == [s[start..]]
    decreases |s| - i
  {
    if i < |s| {
      SplitWithoutMarker(s, start, i + 1);
    }
  }

  /** `[\:\.\,\;\s]`. */
  predicate QuestionTrail(c: char) { IsWs(c) || c == ':' || c == '.' || c == ',' || c == ';' }

  /** `re.sub("[\:\.\,\;\s]$", "", y).strip()` of a stripped `y`. */
  function Finish(y: string): (r: string)
    requires Stripped(y)
    ensures Stripped(r)
  {
    assert y == [] || !IsWs(y[|y| - 1]);
    Strip(DropLastIn(y, QuestionTrail))
  }

  /** The comprehension over the pieces: the ones not blank, finished. */
  function Pieces(xs: seq<string>): (r: seq<string>)
    ensures |r| <= |xs|
    ensures forall j :: 0 <= j < |r| ==> Stripped(r[j])
  {
    FinishAll(NonEmpty(StripAll(xs)))
  }

  function FinishAll(ys: seq<string>): (r: seq<string>)
    requires forall j :: 0 <= j < |ys| ==> Stripped(ys[j])
    ensures |r| == |ys| && forall j :: 0 <= j < |r| ==> Stripped(r[j])
  {
    seq(|ys|, j requires 0 <= j < |ys| && Stripped(ys[j]) => Finish(ys[j]))
  }

  /** The first loop on one topic: skipped when it has no questions, else its
      questions joined, cleared of the noise phrase and re-split. */
  function Repair(t: VrpTopic): (r: VrpTopic)
    ensures r.title == t.title
    ensures t.questions == [] ==> r == t
    ensures forall j :: 0 <= j < |r.questions| ==> Stripped(r.questions[j])
  {
    if t.questions == [] then t
    else VrpTopic(t.title, Pieces(SplitNumbered(RemoveAll(JoinWith(" ", Restore(t.questions)), NOISE))))
  }

  /** The second loop on one topic: a title of at most seven characters
      takes in the first question, which leaves the list. */
  function Merge(t: VrpTopic): (r: VrpTopic)
    ensures |t.title| <= 7 && t.questions != [] ==> r == VrpTopic(t.title + " " + t.questions[0], t.questions[1..])
    ensures |t.title| <= 7 && t.questions != [] ==> |r.questions| == |t.questions| - 1 && |r.title| > |t.title|
    ensures |t.title| > 7 || t.questions == [] ==> r == t
  {
    if |t.title| > 7 || t.questions == [] then t
    else VrpTopic(t.title + " " + t.questions[0], t.questions[1..])
  }

  /** Merging moves text from the questions into the title without losing
      any: title and questions joined with spaces read the same. */
  lemma MergeKeepsText(t: VrpTopic)
    ensures JoinWith(" ", [Merge(t).title] + Merge(t).questions) == JoinWith(" ", [t.title] + t.questions)
  {
    var qs := t.questions;
    if |t.title| <= 7 && qs != [] {
      var m := Merge(t);
      assert ([t.title] + qs)[1..] == qs;
      assert ([m.title] + m.questions)[1..] == qs[1..];
      if |qs| > 1 {
        assert JoinWith(" ", qs) == qs[0] + " " + JoinWith(" ", qs[1..]);
      }
    }
  }

  /** The first loop of `process_vrp_questions`, in place. */
  method RepairAll(a: array<VrpTopic>)
    modifies a
    ensures forall i :: 0 <= i < a.Length ==> a[i] == Repair(old(a[i]))
  {
    var i := 0;
    while i < a.Length
      invariant 0 <= i <= a.Length
      invariant forall j :: 0 <= j < i ==> a[j] == Repair(old(a[j]))
      invariant forall j :: i <= j < a.Length ==> a[j] == old(a[j])
    {
      RepairAt(a, i);
      i := i + 1;
    }
  }

  /** One pass of that loop: a topic without questions is skipped, any other
      gets its questions rebuilt. */
  method RepairAt(a: array<VrpTopic>, i: int)
    requires 0 <= i < a.Length
    modifies a
    ensures a[i] == Repair(old(a[i]))
    ensures forall j :: 0 <= j < a.Length && j != i ==> a[j] == old(a[j])
  {
    if a[i].questions != [] {
      var t := Repair(a[i]);
      a[i] := t;
    }
  }

  /** The second loop, in place. */
  method MergeAll(a: array<VrpTopic>)
    modifies a
    ensures forall i :: 0 <= i < a.Length ==> a[i] == Merge(old(a[i]))
  {
    var k := 0;
    while k < a.Length
      invariant 0 <= k <= a.Length
      invariant forall j :: 0 <= j < k ==> a[j] == Merge(old(a[j]))
      invariant forall j :: k <= j < a.Length ==> a[j] == old(a[j])
    {
      var title, body := a[k].title, a[k].questions;
      if !(|title| > 7 || body == []) {
        a[k] := VrpTopic(title + " " + body[0], body[1..]);
      }
      k := k + 1;
    }
  }

  /** `process_vrp_questions`: both loops over the same topics. */
  method ProcessVrpQuestions(a: array<VrpTopic>)
    modifies a
    ensures forall i :: 0 <= i < a.Length ==> a[i] == Merge(Repair(old(a[i])))
  {
    RepairAll(a);
    MergeAll(a);
    assert forall i :: 0 <= i < a.Length ==> old(a[i]) == old(a[..])[i];
  }

  /** A bare number line gets its `)` back, and the join puts the space
      after it: the marker `N) ` reappears. */
  lemma NumberLineRejoins(d: string, x: string)
    requires |d| > 0 && AllDigits(d) && !IsNumber(x)
    ensures JoinWith(" ", Restore([d, x])) == d + ") " + x
  {
    var r := Restore([d, x]);
    assert r[0] == d + ")" && r[1] == x;
    assert r[1..] == [x];
  }

  /** A string that starts with a marker and has none after it splits into
      the empty piece before the marker and the rest. */
  lemma MarkerThenText(d: string, x: string)
    requires |d| > 0 && AllDigits(d)
    requires forall j :: 0 <= j < |x| ==> Marker(x[j..]).None?
    ensures SplitNumbered(d + ") " + x) == [[], x]
  {
    var s := d + ") " + x;
    var n := |d| + 2;
    DigitRunOfPrefix(d, ") " + x);
    assert s == d + (") " + x);
    assert s[0..] == s;
    assert s[|d|] == ')' && s[|d| + 1] == ' ';
    assert Marker(s[0..]) == Some(n);
    forall j | n <= j < |s| ensures Marker(s[j..]).None? {
      assert s[j..] == x[j - n..];
    }
    SplitWithoutMarker(s, n, n);
    assert s[..0] == [];
    assert s[n..] == x;
  }

  /** The empty piece is dropped, the text is finished. */
  lemma PiecesOfEmptyAndText(x: string)
    requires Strip(x) != []
    ensures Pieces([[], x]) == [Finish(Strip(x))]
  {
    StripPair(x);
    DropEmptyHead([[], Strip(x)]);
    var f := FinishAll([Strip(x)]);
    assert |f| == 1 && f[0] == Finish(Strip(x));
  }

  lemma StripPair(x: string)
    ensures StripAll([[], x]) == [[], Strip(x)]
  {
    var ys := StripAll([[], x]);
    assert |ys| == 2 && ys[1] == Strip(x);
    assert |Strip(ys[0])| == 0;
  }

  /** An empty piece in front of a kept one is dropped. */
  lemma DropEmptyHead(ys: seq<string>)
    requires |ys| == 2 && ys[0] == [] && ys[1] != [] && Stripped(ys[1])
    ensures NonEmpty(ys) == [ys[1]]
  {
    assert ys[1..] == [ys[1]];
    assert ys[1..][1..] == [];
  }

  /** A question line that is only a number, followed by the question's text:
      the number and its restored `)` are split off and the text, finished,
      is the one question left. */
  lemma NumberLineSplitsOff(title: string, d: string, x: string)
    requires |d| > 0 && AllDigits(d)
    requires !IsNumber(x) && Strip(x) != []
    requires forall j :: 0 <= j < |x| ==> Marker(x[j..]).None?
    requires forall i :: 0 <= i <= |d| + 2 + |x| ==> !HasPrefix((d + ") " + x)[i..], NOISE)
    ensures Repair(VrpTopic(title, [d, x])).questions == [Finish(Strip(x))]
  {
    NumberLineRejoins(d, x);
    RemoveAbsent(d + ") " + x, NOISE);
    MarkerThenText(d, x);
    PiecesOfEmptyAndText(x);
  }

  lemma {:induction false} DigitRunOfPrefix(d: string, rest: string)
    requires AllDigits(d) && rest != [] && !IsDigit(rest[0])
    ensures DigitRun(d + rest, 0) == |d|
  {
    DigitRunFrom(d, rest, 0);
  }

  lemma {:induction false} DigitRunFrom(d: string, rest: string, i: nat)
    requires AllDigits(d) && rest != [] && !IsDigit(rest[0]) && i <= |d|
    ensures DigitRun(d + rest, i) == |d| - i
    decreases |d| - i
  {
    if i < |d| {
      DigitRunFrom(d, rest, i + 1);
    } else {
      assert (d + rest)[i] == rest[0];
    }
  }

  // ---------------------------------------------------------------------------
  // extract_vrp_project

  /** The topics `extract_vrp_project` returns, as a value. */
  function VrpProject(titleTexts: seq<string>, lineTexts: seq<string>): seq<VrpTopic>
  {
    Processed(Emitted(CleanLines(lineTexts), CleanTitles(titleTexts)))
  }

  /** `process_vrp_questions` on the scanned topics, as a value. */
  function Processed(ts: seq<VrpTopic>): seq<VrpTopic>
  {
    seq(|ts|, i requires 0 <= i < |ts| => Merge(Repair(ts[i])))
  }

  /** `extract_vrp_project`: clean both node lists, scan, then process the
      topics in place. */
  method ExtractVrpProject(titleTexts: seq<string>, lineTexts: seq<string>) returns (topics: seq<VrpTopic>)
    ensures topics == VrpProject(titleTexts, lineTexts)
  {
    var titles := CleanTitles(titleTexts);
    var text := CleanLines(lineTexts);
    var scanned := FlatScan(text, titles);
    var a := new VrpTopic[|scanned|](i requires 0 <= i < |scanned| => scanned[i]);
    ProcessVrpQuestions(a);
    topics := a[..];
    ProcessedIs(scanned, topics);
  }

  /** The topics, each repaired and merged, are what `Processed` gives. */
  lemma ProcessedIs(ts: seq<VrpTopic>, out: seq<VrpTopic>)
    requires |out| == |ts| && forall i :: 0 <= i < |ts| ==> out[i] == Merge(Repair(ts[i]))
    ensures out == Processed(ts)
  {
  }
}
