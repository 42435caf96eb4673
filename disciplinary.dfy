/** The disciplinary-chamber agenda (`extract_project`, `extract_questions`):
    titles come from paragraphs, questions from the ordered lists, and the two
    are paired position by position. The page's XPath queries become inputs:
    each title candidate and each list item is the sequence of its text
    nodes. */
module Disciplinary {
  import opened Text
  import opened Agenda
  import opened Normalizer
  import opened Speaker
  import opened LostQuestion

  /** The text nodes of one candidate title paragraph. */
  type Candidate = seq<string>

  // ---------------------------------------------------------------------------
  // Title candidates

  /** `p[@class="rtejustify"]` is abandoned for the underlined paragraphs
      when it finds nothing, or only one paragraph whose first text node is a
      non-breaking space. A sole paragraph with no text at all makes the
      `[0]` raise `IndexError`, which the `except ValueError` lets through. */
  function ChooseCandidates(justified: seq<Candidate>, underlined: seq<Candidate>): (r: Result<seq<Candidate>, Crash>)
    ensures r.Failure? <==> |justified| == 1 && justified[0] == []
    ensures r.Success? && (justified == [] || (|justified| == 1 && justified[0][0] == [NBSP])) ==> r.value == underlined
    ensures r.Success? && justified != [] && !(|justified| == 1 && justified[0][0] == [NBSP]) ==> r.value == justified
  {
    if |justified| == 1 && justified[0] == [] then Failure(IndexError)
    else if justified == [] || (|justified| == 1 && justified[0][0] == [NBSP]) then Success(underlined)
    else Success(justified)
  }

  // ---------------------------------------------------------------------------
  // Title filter

  /** `[:.,]`. */
  predicate TitleTrail(c: char) { c == ':' || c == '.' || c == ',' }

  /** The text of a candidate: its text nodes joined, stripped. */
  function Joined(c: Candidate): (r: string)
    ensures Stripped(r)
  {
    Strip(Concat(c))
  }

  /** The title a joined text yields: kept only when it starts with a digit,
      with one trailing `:`, `.` or `,` dropped. */
  function TitleOfText(t: string): (r: Option<string>)
    ensures r.None? <==> !StartsWithDigit(t)
    ensures r.Some? ==> r.value != [] && IsDigit(r.value[0])
    ensures r.Some? ==> HasPrefix(t, r.value) && |t| <= |r.value| + 1
    ensures r.Some? ==> (r.value == t <==> !TitleTrail(t[|t| - 1]))
  {
    if !StartsWithDigit(t) then None
    else if TitleTrail(t[|t| - 1]) then Some(t[..|t| - 1])
    else Some(t)
  }

  /** The title a candidate yields. */
  function TitleOf(c: Candidate): Option<string>
  {
    TitleOfText(Joined(c))
  }

  /** What each candidate yields, position by position. */
  function TitlesOf(cs: seq<Candidate>): (r: seq<Option<string>>)
  {
    seq(|cs|, j requires 0 <= j < |cs| => TitleOf(cs[j]))
  }

  /** The values that are present, in order. */
  function Present(os: seq<Option<string>>): (r: seq<string>)
    ensures |r| <= |os|
    decreases |os|
  {
    if os == [] then []
    else
      var last := os[|os| - 1];
      Present(os[..|os| - 1]) + (if last.Some? then [last.value] else [])
  }

  /** Filtering a concatenation filters each half: the kept values keep
      their order. */
  lemma {:induction false} PresentAppend(a: seq<Option<string>>, b: seq<Option<string>>)
    ensures Present(a + b) == Present(a) + Present(b)
    decreases |b|
  {
    if b == [] {
      assert a + b == a;
    } else {
      var b' := b[..|b| - 1];
      PresentAppend(a, b');
      assert (a + b)[..|a + b| - 1] == a + b';
      assert (a + b)[|a + b| - 1] == b[|b| - 1];
    }
  }

  /** A property of every present value holds of every kept one. */
  lemma {:induction false} PresentAreTitles(os: seq<Option<string>>)
    requires forall k :: 0 <= k < |os| && os[k].Some? ==> os[k].value != [] && IsDigit(os[k].value[0])
    ensures forall j :: 0 <= j < |Present(os)| ==> Present(os)[j] != [] && IsDigit(Present(os)[j][0])
    decreases |os|
  {
    if os != [] {
      var init := os[..|os| - 1];
      assert forall k :: 0 <= k < |init| ==> init[k] == os[k];
      PresentAreTitles(init);
    }
  }

  /** The titles kept from the candidates, in candidate order. */
  function KeptTitles(cs: seq<Candidate>): (r: seq<string>)
    ensures |r| <= |cs|
  {
    Present(TitlesOf(cs))
  }

  /** Every kept title starts with a digit. */
  lemma KeptTitlesAreTitles(cs: seq<Candidate>)
    ensures forall j :: 0 <= j < |KeptTitles(cs)| ==> KeptTitles(cs)[j] != [] && IsDigit(KeptTitles(cs)[j][0])
  {
    PresentAreTitles(TitlesOf(cs));
  }

  /** A single candidate contributes its title, if it has one. */
  lemma KeptTitlesOne(c: Candidate)
    ensures KeptTitles([c]) == if TitleOf(c).Some? then [TitleOf(c).value] else []
  {
    var os := TitlesOf([c]);
    assert os[..0] == [];
  }

  /** The `for p in titles` loop appending to `titles_list`: each
      paragraph's title, when it has one, in paragraph order. */
  method FilterTitles(cs: seq<Candidate>) returns (titles: seq<string>)
    ensures titles == KeptTitles(cs)
  {
    var os := TitlesOf(cs);
    titles := [];
    var i := 0;
    while i < |os|
      invariant 0 <= i <= |os|
      invariant titles == Present(os[..i])
    {
      PresentSnoc(os, i);
      if os[i].Some? {
        titles := titles + [os[i].value];
      }
      i := i + 1;
    }
    assert os[..|os|] == os;
  }

  /** One more position filtered. */
  lemma PresentSnoc(os: seq<Option<string>>, i: nat)
    requires i < |os|
    ensures Present(os[..i + 1]) == Present(os[..i]) + (if os[i].Some? then [os[i].value] else [])
  {
    assert os[..i + 1][..i] == os[..i];
  }

  // ---------------------------------------------------------------------------
  // Question groups

  /** The row `split(q) + [False]` of one normalised item; the scraper's
      `split` is `ExtractSpokesperson`. */
  function QuestionRow(q: string, split: string -> seq<PyVal>): (r: Row)
    ensures |r| == |split(q)| + 1 && r[|r| - 1] == PyBool(false)
    ensures r[..|r| - 1] == split(q)
  {
    split(q) + [PyBool(false)]
  }

  /** The first pass of `extract_questions`: each item's text nodes joined
      with spaces and normalised by `fix` (the scraper's is `SpokespersonFix`). */
  function Sections(lists: seq<seq<seq<string>>>, fix: string -> string): (r: seq<seq<string>>)
    ensures |r| == |lists|
    ensures forall g :: 0 <= g < |lists| ==> |r[g]| == |lists[g]|
    ensures forall g, j :: 0 <= g < |lists| && 0 <= j < |lists[g]| ==> r[g][j] == fix(JoinWith(" ", lists[g][j]))
  {
    if lists == [] then [] else [Section(lists[0], fix)] + Sections(lists[1..], fix)
  }

  function Section(items: seq<seq<string>>, fix: string -> string): (r: seq<string>)
    ensures |r| == |items| && forall j :: 0 <= j < |items| ==> r[j] == fix(JoinWith(" ", items[j]))
  {
    if items == [] then [] else [fix(JoinWith(" ", items[0]))] + Section(items[1..], fix)
  }

  /** The row of item `j` of list `g`. */
  function ItemRow(lists: seq<seq<seq<string>>>, g: nat, j: nat, fix: string -> string, split: string -> seq<PyVal>): Row
    requires g < |lists| && j < |lists[g]|
  {
    QuestionRow(fix(JoinWith(" ", lists[g][j])), split)
  }

  /** `extract_questions`: one group per `<ol>`, one row per item, built by
      the second pass's nested loops. */
  method ExtractQuestions(lists: seq<seq<seq<string>>>, fix: string -> string, split: string -> seq<PyVal>)
    returns (groups: seq<seq<Row>>)
    ensures |groups| == |lists|
    ensures forall g :: 0 <= g < |lists| ==> |groups[g]| == |lists[g]|
    ensures forall g, j :: 0 <= g < |lists| && 0 <= j < |lists[g]| ==> groups[g][j] == ItemRow(lists, g, j, fix, split)
  {
    var sections := Sections(lists, fix);
    groups := [];
    var g := 0;
    while g < |sections|
      invariant 0 <= g <= |sections| && |groups| == g
      invariant forall h :: 0 <= h < g ==> RowsOf(groups[h], sections[h], split)
    {
      var section: seq<Row> := [];
      var j := 0;
      while j < |sections[g]|
        invariant 0 <= j <= |sections[g]| && |section| == j
        invariant forall k :: 0 <= k < j ==> section[k] == QuestionRow(sections[g][k], split)
      {
        section := section + [QuestionRow(sections[g][j], split)];
        j := j + 1;
      }
      groups := groups + [section];
      g := g + 1;
    }
    forall h | 0 <= h < |lists|
      ensures |groups[h]| == |lists[h]|
      ensures forall j :: 0 <= j < |lists[h]| ==> groups[h][j] == ItemRow(lists, h, j, fix, split)
    {
      assert RowsOf(groups[h], sections[h], split);
    }
  }

  /** `rows` holds the row of each item of `items`, in order. */
  predicate RowsOf(rows: seq<Row>, items: seq<string>, split: string -> seq<PyVal>)
  {
    |rows| == |items| && forall k :: 0 <= k < |items| ==> rows[k] == QuestionRow(items[k], split)
  }

  /** The groups `extract_questions` computes, as a value. */
  function Groups(lists: seq<seq<seq<string>>>, fix: string -> string, split: string -> seq<PyVal>): (r: seq<seq<Row>>)
    ensures |r| == |lists|
    ensures forall g :: 0 <= g < |lists| ==> |r[g]| == |lists[g]|
    ensures forall g, j :: 0 <= g < |lists| && 0 <= j < |lists[g]| ==> r[g][j] == ItemRow(lists, g, j, fix, split)
  {
    if lists == [] then [] else [Rows(lists[0], fix, split)] + Groups(lists[1..], fix, split)
  }

  function Rows(items: seq<seq<string>>, fix: string -> string, split: string -> seq<PyVal>): (r: seq<Row>)
    ensures |r| == |items| && forall j :: 0 <= j < |items| ==> r[j] == QuestionRow(fix(JoinWith(" ", items[j])), split)
  {
    if items == [] then [] else [QuestionRow(fix(JoinWith(" ", items[0])), split)] + Rows(items[1..], fix, split)
  }

  /** Two nestings of rows with the same shape and the same rows are equal. */
  lemma SameGroups(a: seq<seq<Row>>, b: seq<seq<Row>>)
    requires |a| == |b|
    requires forall g :: 0 <= g < |a| ==> |a[g]| == |b[g]|
    requires forall g, j :: 0 <= g < |a| && 0 <= j < |a[g]| ==> a[g][j] == b[g][j]
    ensures a == b
  {
    forall g | 0 <= g < |a| ensures a[g] == b[g] { }
  }

  // ---------------------------------------------------------------------------
  // Off-by-one recovery and pairing

  /** When there is exactly one title more than groups, the last title's
      question is looked for outside the lists and appended as one more
      group: with the row found, or empty. */
  function Recover(titles: seq<string>, groups: seq<seq<Row>>, lost: Option<Row>): (r: seq<seq<Row>>)
    ensures |titles| - |groups| == 1 ==> |r| == |groups| + 1 && r[..|groups|] == groups
    ensures |titles| - |groups| == 1 && lost.None? ==> r[|groups|] == []
    ensures |titles| - |groups| == 1 && lost.Some? ==> r[|groups|] == [lost.value]
    ensures |titles| - |groups| != 1 ==> r == groups
  {
    if |titles| - |groups| == 1 then groups + [if lost.None? then [] else [lost.value]] else groups
  }

  /** The last-title search only matters when one group is missing. */
  function LostFor(titles: seq<string>, groupCount: nat, page: seq<string>): Option<Row>
    requires |titles| - groupCount == 1 ==> PlainTitle(titles[|titles| - 1])
  {
    if |titles| - groupCount == 1 then ExtractLostQuestion(page, titles[|titles| - 1]) else None
  }

  /** `dict(zip(["title", "questions"], q)) for q in zip(titles, groups)`,
      with each row turned into a question dictionary. */
  function Pair(titles: seq<string>, groups: seq<seq<Row>>): (r: seq<AgendaItem>)
    ensures |r| == if |titles| < |groups| then |titles| else |groups|
    ensures forall j :: 0 <= j < |r| ==> r[j] == AgendaItem(titles[j], ToQuestions(groups[j]))
  {
    if titles == [] || groups == [] then []
    else [AgendaItem(titles[0], ToQuestions(groups[0]))] + Pair(titles[1..], groups[1..])
  }

  /** The title of the recovered group must be usable as a literal pattern. */
  predicate LostTitleIsPlain(justified: seq<Candidate>, underlined: seq<Candidate>, lists: seq<seq<seq<string>>>)
  {
    var chosen := ChooseCandidates(justified, underlined);
    chosen.Success? ==>
      var titles := KeptTitles(chosen.value);
      |titles| - |lists| == 1 ==> PlainTitle(titles[|titles| - 1])
  }

  /** The agenda `extract_project` returns, as a value. */
  function Project(justified: seq<Candidate>, underlined: seq<Candidate>, lists: seq<seq<seq<string>>>, page: seq<string>): (r: Result<seq<AgendaItem>, Crash>)
    requires LostTitleIsPlain(justified, underlined, lists)
    ensures r.Failure? <==> ChooseCandidates(justified, underlined).Failure?
    ensures r.Failure? ==> r.error == ChooseCandidates(justified, underlined).error
    ensures r.Success? ==>
      var titles := KeptTitles(ChooseCandidates(justified, underlined).value);
      |r.value| <= |titles| && forall j :: 0 <= j < |r.value| ==> r.value[j].title == titles[j]
  {
    match ChooseCandidates(justified, underlined)
    case Failure(e) => Failure(e)
    case Success(cs) =>
      var titles := KeptTitles(cs);
      var groups := Groups(lists, SpokespersonFix, ExtractSpokesperson);
      Success(Pair(titles, Recover(titles, groups, LostFor(titles, |groups|, page))))
  }

  /** The `zip` of titles with groups into title/questions records, then the
      loop that turns each record's rows into question dictionaries. */
  method PairUp(titles: seq<string>, groups: seq<seq<Row>>) returns (items: seq<AgendaItem>)
    ensures items == Pair(titles, groups)
  {
    var records: seq<(string, seq<Row>)> := [];
    var i := 0;
    while i < |titles| && i < |groups|
      invariant 0 <= i <= |titles| && i <= |groups| && |records| == i
      invariant forall j :: 0 <= j < i ==> records[j] == (titles[j], groups[j])
    {
      records := records + [(titles[i], groups[i])];
      i := i + 1;
    }
    items := [];
    var k := 0;
    while k < |records|
      invariant 0 <= k <= |records| && |items| == k
      invariant forall j :: 0 <= j < k ==> items[j] == AgendaItem(records[j].0, ToQuestions(records[j].1))
    {
      items := items + [AgendaItem(records[k].0, ToQuestions(records[k].1))];
      k := k + 1;
    }
    var want := Pair(titles, groups);
    assert |items| == |want|;
    forall j | 0 <= j < |items| ensures items[j] == want[j] { }
  }

  /** `extract_project`: choose the candidates, filter the titles, build the
      groups, recover a missing last group, pair titles with groups. */
  method ExtractProject(justified: seq<Candidate>, underlined: seq<Candidate>, lists: seq<seq<seq<string>>>, page: seq<string>)
    returns (r: Result<seq<AgendaItem>, Crash>)
    requires LostTitleIsPlain(justified, underlined, lists)
    ensures r == Project(justified, underlined, lists, page)
  {
    var chosen := ChooseCandidates(justified, underlined);
    if chosen.Failure? {
      return Failure(chosen.error);
    }
    var titles := FilterTitles(chosen.value);
    var groups := ExtractQuestions(lists, SpokespersonFix, ExtractSpokesperson);
    SameGroups(groups, Groups(lists, SpokespersonFix, ExtractSpokesperson));
    if |titles| - |groups| == 1 {
      var lost := ExtractLostQuestion(page, titles[|titles| - 1]);
      if lost.None? {
        groups := groups + [[]];
      } else {
        groups := groups + [[lost.value]];
      }
    }
    var items := PairUp(titles, groups);
    r := Success(items);
  }

  // ---------------------------------------------------------------------------
  // What the pairing does to each question

  /** A split into question and speaker keeps the flag `False` as `error`. */
  lemma QuestionOfTwoParts(parts: seq<PyVal>)
    requires |parts| == 2
    ensures ToQuestion(parts + [PyBool(false)]) == Question(Some(parts[0]), Some(parts[1]), Some(PyBool(false)))
  {
  }

  /** `zip` stops at three keys: from a split of three or more parts the
      third part lands in `error` and the flag `False` is lost. */
  lemma QuestionOfManyParts(parts: seq<PyVal>)
    requires |parts| >= 3
    ensures ToQuestion(parts + [PyBool(false)]) == Question(Some(parts[0]), Some(parts[1]), Some(parts[2]))
  {
  }

  /** An item whose text is empty after the split becomes only the flag,
      under the key `question`. */
  lemma QuestionOfNoParts()
    ensures ToQuestion([] + [PyBool(false)]) == Question(Some(PyBool(false)), None, None)
  {
  }

  /** In the model of the whole page: every item of the result has a kept
      title, paired with the group at the same position. */
  lemma ProjectPairsTitles(justified: seq<Candidate>, underlined: seq<Candidate>, lists: seq<seq<seq<string>>>, page: seq<string>)
    requires LostTitleIsPlain(justified, underlined, lists)
    ensures var r := Project(justified, underlined, lists, page);
      r.Success? ==>
        var titles := KeptTitles(ChooseCandidates(justified, underlined).value);
        var groups := Recover(titles, Groups(lists, SpokespersonFix, ExtractSpokesperson), LostFor(titles, |lists|, page));
        && |r.value| == (if |titles| < |groups| then |titles| else |groups|)
        && (forall j :: 0 <= j < |r.value| ==> r.value[j].title == titles[j])
        && (forall j :: 0 <= j < |r.value| ==> r.value[j].questions == ToQuestions(groups[j]))
  {
  }
}
