/** `extract_lost_question`: the question of the last agenda title when the
    page lists it outside every `<ol>`. The page text is joined into lines,
    and the pattern

        ^TITLE.+\n(.+?(?:.+)\n(?:.+?\n)+)Секретар

    (searched with `re.MULTILINE`, the title's dots escaped) is read as a
    condition on consecutive lines: a line that starts with the title and
    has more after it, a line of at least two characters, one or more
    non-empty lines, and then a line that starts with `Секретар `. */
module LostQuestion {
  import opened Text
  import opened Agenda
  import opened Speaker

  const SECRETARY: string := "Секретар "

  /** The characters that would make the title a different pattern once
      pasted into the search; only `.` is escaped by the source. */
  const METACHARS: set<char> := {'\\', '^', '$', '*', '+', '?', '{', '}', '[', ']', '(', ')', '|'}

  /** A title that, with its dots escaped, matches only itself, and stays in
      one line. */
  predicate PlainTitle(t: string)
  {
    forall j :: 0 <= j < |t| ==> t[j] !in METACHARS && t[j] != '\n'
  }

  /** `[y for x in texts if (y := x.strip())]`. */
  function StrippedTexts(texts: seq<string>): seq<string>
  {
    NonEmpty(StripAll(texts))
  }

  /** The lines inside the text the source searches: at least one, none
      holding a line break, and joined back they are that text. */
  function PageLines(texts: seq<string>): (r: seq<string>)
    ensures |r| >= 1 && forall k :: 0 <= k < |r| ==> Free(r[k], '\n')
    ensures JoinWith("\n", r) == JoinWith("\n", StrippedTexts(texts))
  {
    var text := JoinWith("\n", StrippedTexts(texts));
    SplitJoin(text, '\n');
    Split(text, '\n')
  }

  /** The pattern matches from the start of line `i`, with `k` lines between
      the two-character line and the `Секретар ` line. */
  predicate Qualifies(lines: seq<string>, i: nat, t: string, k: nat)
  {
    && k >= 1
    && i + 2 + k < |lines|
    && HasPrefix(lines[i], t) && |lines[i]| > |t|
    && |lines[i + 1]| >= 2
    && (forall j :: i + 2 <= j < i + 2 + k ==> lines[j] != [])
    && HasPrefix(lines[i + 2 + k], SECRETARY)
  }

  /** The greedy `(?:.+?\n)+` backs off from the longest run: the largest
      qualifying `k` that is at most `k0`. */
  function LastSecretary(lines: seq<string>, i: nat, t: string, k0: nat): (r: Option<nat>)
    ensures r.Some? ==> 1 <= r.value <= k0 && Qualifies(lines, i, t, r.value)
    ensures r.Some? ==> forall k :: r.value < k <= k0 ==> !Qualifies(lines, i, t, k)
    ensures r.None? ==> forall k :: 0 <= k <= k0 ==> !Qualifies(lines, i, t, k)
    decreases k0
  {
    if k0 == 0 then None
    else if Qualifies(lines, i, t, k0) then Some(k0)
    else LastSecretary(lines, i, t, k0 - 1)
  }

  /** Where the search succeeds: the title line and the length of the run
      of lines before the `Секретар ` line. */
  datatype Found = Found(start: nat, run: nat)

  /** The leftmost line from which the pattern matches, with its greedy run. */
  function FindLost(lines: seq<string>, t: string, i: nat): (r: Option<Found>)
    requires i <= |lines|
    ensures r.Some? ==> i <= r.value.start && Qualifies(lines, r.value.start, t, r.value.run)
    ensures r.Some? ==> forall k :: r.value.run < k ==> !Qualifies(lines, r.value.start, t, k)
    ensures r.Some? ==> forall i', k :: i <= i' < r.value.start ==> !Qualifies(lines, i', t, k)
    ensures r.None? ==> forall i', k :: i <= i' ==> !Qualifies(lines, i', t, k)
    decreases |lines| - i
  {
    if i == |lines| then None
    else match LastSecretary(lines, i, t, |lines|)
      case Some(k) => Some(Found(i, k))
      case None => FindLost(lines, t, i + 1)
  }

  /** Each line followed by its newline, as the group captures them. */
  function Terminated(lines: seq<string>): string
  {
    if lines == [] then "" else lines[0] + "\n" + Terminated(lines[1..])
  }

  /** The captured group: the two-character line and the run after it. */
  function Block(lines: seq<string>, f: Found): string
    requires f.start + 2 + f.run <= |lines|
  {
    Terminated(lines[f.start + 1..f.start + 2 + f.run])
  }

  /** What `extract_lost_question` returns: `None` for the source's `''`,
      otherwise the split of the collapsed block with the error flag `False`. */
  function ExtractLostQuestion(texts: seq<string>, title: string): (r: Option<Row>)
    requires PlainTitle(title)
    ensures r.None? <==> forall i, k :: !Qualifies(PageLines(texts), i, title, k)
    ensures r.Some? ==> |r.value| >= 1 && r.value[|r.value| - 1] == PyBool(false)
    ensures r.Some? ==> forall j :: 0 <= j < |r.value| - 1 ==> r.value[j] != PyBool(false) && r.value[j] != PyBool(true)
  {
    var lines := PageLines(texts);
    match FindLost(lines, title, 0)
    case None => None
    case Some(f) => Some(ExtractSpokesperson(Collapse(Block(lines, f))) + [PyBool(false)])
  }

  /** The row found comes from the leftmost qualifying title line and the
      longest run after it. */
  lemma LostQuestionIsLeftmostLongest(texts: seq<string>, title: string)
    requires PlainTitle(title)
    ensures var lines := PageLines(texts);
      ExtractLostQuestion(texts, title).Some? ==>
        exists i, k :: Qualifies(lines, i, title, k)
          && (forall i', k' :: i' < i ==> !Qualifies(lines, i', title, k'))
          && (forall k' :: k < k' ==> !Qualifies(lines, i, title, k'))
          && ExtractLostQuestion(texts, title)
             == Some(ExtractSpokesperson(Collapse(Block(lines, Found(i, k)))) + [PyBool(false)])
  {
    var lines := PageLines(texts);
    var r := FindLost(lines, title, 0);
    if r.Some? {
      var f := r.value;
      assert Qualifies(lines, f.start, title, f.run);
    }
  }
}
