/** The lines of `get_project_data` that decide what kind of session a
    listing entry announces and the code its files are saved under:
    `TYPE_TALK_RE` with its optional `name` group, `DP_DICT`, and the talk
    code built from the last `-`-separated segment of the entry's link. */
module Listing {
  import opened Text
  import opened Agenda

  const OPENING: string := "Засідання "
  const COUNCIL: string := "Вищої ради правосуддя"
  const CHAMBER: string := " Дисциплінарної палати "

  /** The alternatives of the `name` group, in the order they are tried. */
  const ORDINALS: seq<string> := ["Першої", "Другої", "Третьої"]

  /** `DP_DICT`: the lower-cased chamber name to its type. */
  const DP_DICT: map<string, string> := map["першої" := "dp1", "другої" := "dp2", "третьої" := "dp3"]

  /** The type of each chamber, in the order of `ORDINALS`. */
  const CHAMBER_TYPES: seq<string> := ["dp1", "dp2", "dp3"]

  // ---------------------------------------------------------------------------
  // TYPE_TALK_RE

  /** What the optional group contributes to the title. */
  function Group(g: Option<string>): string
  {
    if g.None? then "" else g.value + CHAMBER
  }

  /** Reference reading of `TYPE_TALK_RE`: the title is the opening words,
      optionally a chamber, and the council's name, up to the end of the text
      or a final newline (where `$` also matches); `g` is the `name` group. */
  predicate Matches(name: string, g: Option<string>)
  {
    && (g.Some? ==> g.value in ORDINALS)
    && (name == Title(g, "") || name == Title(g, "\n"))
  }

  /** The title with group `g`, followed by `end`. */
  function Title(g: Option<string>, end: string): string
  {
    OPENING + (Group(g) + (COUNCIL + end))
  }

  /** The first alternative from the `i`-th on that, followed by the
      chamber words, starts `rest`. */
  function ChamberAt(rest: string, i: nat): (r: Option<string>)
    requires i <= |ORDINALS|
    ensures r.Some? ==> r.value in ORDINALS && HasPrefix(rest, Group(r))
    ensures r.None? ==> forall j :: i <= j < |ORDINALS| ==> !HasPrefix(rest, ORDINALS[j] + CHAMBER)
    decreases |ORDINALS| - i
  {
    if i == |ORDINALS| then None
    else if HasPrefix(rest, ORDINALS[i] + CHAMBER) then Some(ORDINALS[i])
    else ChamberAt(rest, i + 1)
  }

  /** `TYPE_TALK_RE.match(name)`: `None` when there is no match, otherwise
      the value of the `name` group. */
  function MatchTalk(name: string): (r: Option<Option<string>>)
    ensures r.Some? ==> Matches(name, r.value)
  {
    if !HasPrefix(name, OPENING) then None
    else
      var rest := name[|OPENING|..];
      var g := ChamberAt(rest, 0);
      var tail := rest[|Group(g)|..];
      if tail == COUNCIL || tail == COUNCIL + "\n" then
        assert name == OPENING + (Group(g) + tail) by {
          PrefixThenRest(name, OPENING);
          PrefixThenRest(rest, Group(g));
        }
        Some(g)
      else None
  }

  /** No alternative of the group, nor the council's name, starts the way
      another one does: their first letters already differ. */
  lemma FirstLetters()
    ensures ORDINALS[0][0] == 'П' && ORDINALS[1][0] == 'Д' && ORDINALS[2][0] == 'Т'
    ensures COUNCIL[0] == 'В'
  {
  }

  lemma PrefixHead(s: string, p: string)
    requires HasPrefix(s, p) && p != []
    ensures s[0] == p[0]
  {
    assert s[..|p|][0] == s[0];
  }

  /** After the opening words the council's name leaves the group unset. */
  lemma ChamberAtCouncil(rest: string)
    requires HasPrefix(rest, COUNCIL)
    ensures ChamberAt(rest, 0).None?
  {
    var r := ChamberAt(rest, 0);
    if r.Some? {
      FirstLetters();
      PrefixHead(rest, COUNCIL);
      PrefixHead(rest, Group(r));
      assert false;
    }
  }

  /** A chamber's name followed by the chamber words sets the group to it. */
  lemma ChamberAtOrdinal(rest: string, k: nat)
    requires k < |ORDINALS| && HasPrefix(rest, ORDINALS[k] + CHAMBER)
    ensures ChamberAt(rest, 0) == Some(ORDINALS[k])
  {
    var r := ChamberAt(rest, 0);
    if r != Some(ORDINALS[k]) {
      assert r.Some?;
      FirstLetters();
      PrefixHead(rest, ORDINALS[k] + CHAMBER);
      PrefixHead(rest, Group(r));
      assert false;
    }
  }

  lemma RestOf(g: Option<string>, end: string)
    ensures var name := Title(g, end);
      HasPrefix(name, OPENING) && name[|OPENING|..] == Group(g) + (COUNCIL + end)
    ensures HasPrefix(Group(g) + (COUNCIL + end), Group(g)) && (Group(g) + (COUNCIL + end))[|Group(g)|..] == COUNCIL + end
    ensures HasPrefix(COUNCIL + end, COUNCIL)
  {
    ConcatHasPrefix(OPENING, Group(g) + (COUNCIL + end));
    ConcatHasPrefix(Group(g), COUNCIL + end);
    ConcatHasPrefix(COUNCIL, end);
  }

  /** The match finds exactly the titles of the reference reading, with the
      same group: the regex's choices never need undoing. */
  lemma MatchTalkIsMatches(name: string, g: Option<string>)
    ensures MatchTalk(name) == Some(g) <==> Matches(name, g)
  {
    if Matches(name, g) {
      if name == Title(g, "") {
        RestOf(g, "");
      } else {
        RestOf(g, "\n");
      }
      var rest := name[|OPENING|..];
      if g.None? {
        ChamberAtCouncil(rest);
      } else {
        var k :| 0 <= k < |ORDINALS| && ORDINALS[k] == g.value;
        ChamberAtOrdinal(rest, k);
      }
    }
  }

  // ---------------------------------------------------------------------------
  // Type of the session

  /** `DP_DICT[name_org.lower()]`, or `vrp` when the group is absent. */
  function TypeTalk(g: Option<string>): (r: string)
    requires g.Some? ==> g.value in ORDINALS
    ensures g.None? ==> r == "vrp"
    ensures forall k :: 0 <= k < |ORDINALS| && g == Some(ORDINALS[k]) ==> r == CHAMBER_TYPES[k]
  {
    if g.None? then "vrp"
    else
      var k := OrdinalIndex(g.value);
      LowerOrdinal(k);
      OrdinalsDistinct();
      DP_DICT[LowerString(g.value)]
  }

  /** The position of a chamber's name among `ORDINALS`. */
  function OrdinalIndex(name: string): (k: nat)
    requires name in ORDINALS
    ensures k < |ORDINALS| && ORDINALS[k] == name
  {
    if name == ORDINALS[0] then 0 else if name == ORDINALS[1] then 1 else 2
  }

  /** The three chamber names differ, and so do their types. */
  lemma OrdinalsDistinct()
    ensures forall i, j :: 0 <= i < j < |ORDINALS| ==> ORDINALS[i] != ORDINALS[j]
    ensures forall i, j :: 0 <= i < j < |CHAMBER_TYPES| ==> CHAMBER_TYPES[i] != CHAMBER_TYPES[j]
  {
    FirstLetters();
    assert CHAMBER_TYPES[0][2] == '1' && CHAMBER_TYPES[1][2] == '2' && CHAMBER_TYPES[2][2] == '3';
  }

  /** Each chamber name, lower-cased, is the key `DP_DICT` gives its type under. */
  lemma LowerOrdinal(k: nat)
    requires k < |ORDINALS|
    ensures LowerString(ORDINALS[k]) in DP_DICT && DP_DICT[LowerString(ORDINALS[k])] == CHAMBER_TYPES[k]
  {
    if k == 0 {
      LowerFirst();
    } else if k == 1 {
      LowerSecond();
    } else {
      LowerThird();
    }
  }

  lemma LowerFirst() ensures LowerString("Першої") == "першої" {}

  lemma LowerSecond() ensures LowerString("Другої") == "другої" {}

  lemma LowerThird() ensures LowerString("Третьої") == "третьої" {}

  /** The type of a listing title, or `None` for an entry the scraper skips. */
  function Classify(name: string): (r: Option<string>)
    ensures r.Some? ==> r.value == "vrp" || r.value in CHAMBER_TYPES
  {
    match MatchTalk(name)
    case None => None
    case Some(g) => Some(TypeTalk(g))
  }

  /** Different groups get different types. */
  lemma TypeTalkDistinct(g: Option<string>, k: nat)
    requires (g.Some? ==> g.value in ORDINALS) && k < |ORDINALS|
    ensures TypeTalk(g) == CHAMBER_TYPES[k] <==> g == Some(ORDINALS[k])
    ensures TypeTalk(g) == "vrp" <==> g.None?
  {
    OrdinalsDistinct();
    if g.Some? {
      var k' := OrdinalIndex(g.value);
      assert TypeTalk(g) == CHAMBER_TYPES[k'];
      assert CHAMBER_TYPES[k'][0] == 'd';
    }
  }

  /** The council's own sessions are `vrp`, and only they. */
  lemma ClassifyCouncil(name: string)
    ensures Classify(name) == Some("vrp") <==> Matches(name, None)
  {
    MatchTalkIsMatches(name, None);
    if MatchTalk(name).Some? {
      TypeTalkDistinct(MatchTalk(name).value, 0);
    }
  }

  /** Chamber `k` gets the `k`-th type, and only its sessions do. */
  lemma ClassifyChamber(name: string, k: nat)
    requires k < |ORDINALS|
    ensures Classify(name) == Some(CHAMBER_TYPES[k]) <==> Matches(name, Some(ORDINALS[k]))
  {
    MatchTalkIsMatches(name, Some(ORDINALS[k]));
    if MatchTalk(name).Some? {
      TypeTalkDistinct(MatchTalk(name).value, k);
    }
  }

  /** A title the pattern does not accept yields no data. */
  lemma ClassifySkips(name: string)
    ensures Classify(name).None? <==> forall g :: !Matches(name, g)
  {
    if Classify(name).None? {
      forall g ensures !Matches(name, g) {
        MatchTalkIsMatches(name, g);
      }
    }
  }

  // ---------------------------------------------------------------------------
  // Talk code

  /** `href.split('-')[-1]`, the session's number in its link. */
  function LastSegment(href: string): (r: string)
    ensures Free(r, '-')
    ensures |r| <= |href| && r == href[|href| - |r|..]
    ensures |r| < |href| ==> href[|href| - |r| - 1] == '-'
  {
    SplitLast(href, '-');
    var parts := Split(href, '-');
    parts[|parts| - 1]
  }

  function Zeros(n: nat): (r: string)
    ensures |r| == n && forall j :: 0 <= j < n ==> r[j] == '0'
  {
    if n == 0 then "" else "0" + Zeros(n - 1)
  }

  /** `s.zfill(w)`: zeros go in front, after a leading sign if there is one,
      until the text is `w` long; a text already that long is unchanged. */
  function ZFill(s: string, w: nat): (r: string)
    ensures |r| == if |s| >= w then |s| else w
    ensures |s| >= w ==> r == s
    ensures var n := |r| - |s|;
      if s != [] && s[0] in {'+', '-'} then r[0] == s[0] && r[1..n + 1] == Zeros(n) && r[n + 1..] == s[1..]
      else r[..n] == Zeros(n) && r[n..] == s
  {
    if |s| >= w then s
    else if s != [] && s[0] in {'+', '-'} then [s[0]] + Zeros(w - |s|) + s[1..]
    else Zeros(w - |s|) + s
  }

  /** `type_talk + "_" + session_num.zfill(4)`. */
  function TalkCode(typeTalk: string, href: string): (r: string)
    ensures HasPrefix(r, typeTalk + "_")
    ensures var seg := LastSegment(href);
      |r| == |typeTalk| + 1 + (if |seg| >= 4 then |seg| else 4)
    ensures Free(r[|typeTalk| + 1..], '-')
  {
    var z := ZFill(LastSegment(href), 4);
    var r := typeTalk + "_" + z;
    assert r[..|typeTalk| + 1] == typeTalk + "_" && r[|typeTalk| + 1..] == z;
    r
  }

  /** The number a string of decimal digits denotes. */
  function Value(s: string): nat
    requires AllDigits(s)
  {
    if s == [] then 0 else Value(s[..|s| - 1]) * 10 + (s[|s| - 1] as int - '0' as int)
  }

  lemma {:induction false} ZerosValue(n: nat, s: string)
    requires AllDigits(s)
    ensures AllDigits(Zeros(n) + s) && Value(Zeros(n) + s) == Value(s)
    decreases |s|, n
  {
    var z := Zeros(n);
    if s == [] {
      assert z + s == z;
      if n > 0 {
        assert z[..n - 1] == Zeros(n - 1);
        ZerosValue(n - 1, s);
        assert Zeros(n - 1) + s == Zeros(n - 1);
      }
    } else {
      var p := s[..|s| - 1];
      ZerosValue(n, p);
      assert (z + s)[..|z + s| - 1] == z + p;
    }
  }

  /** For a link ending in a plain number the talk code is the type, `_`,
      and at least four digits denoting that same number. */
  lemma TalkCodeKeepsNumber(typeTalk: string, href: string)
    requires AllDigits(LastSegment(href))
    ensures var code := TalkCode(typeTalk, href); var num := code[|typeTalk| + 1..];
      HasPrefix(code, typeTalk + "_") && |num| >= 4 && AllDigits(num) && Value(num) == Value(LastSegment(href))
  {
    var seg := LastSegment(href);
    var z := ZFill(seg, 4);
    var n := |z| - |seg|;
    if seg != [] {
      assert !(seg[0] in {'+', '-'}) by { assert IsDigit(seg[0]); }
    }
    assert z == Zeros(n) + seg by {
      assert z == z[..n] + z[n..];
    }
    ZerosValue(n, seg);
    var code := TalkCode(typeTalk, href);
    assert code == (typeTalk + "_") + z;
    assert code[|typeTalk| + 1..] == z;
  }

  // ---------------------------------------------------------------------------
  // The listing entry

  /** What the remaining steps of `get_project_data` go on with. */
  datatype Talk = Talk(typeTalk: string, talkCode: string)

  /** The type and the code of a listing entry with title `name` and link
      `href`; `None` when `get_project_data` returns nothing. */
  function TalkOf(name: string, href: string): (r: Option<Talk>)
    ensures r.None? <==> Classify(name).None?
    ensures r.Some? ==> r.value.typeTalk == Classify(name).value
    ensures r.Some? ==> HasPrefix(r.value.talkCode, r.value.typeTalk + "_")
    ensures r.Some? ==> |r.value.talkCode| >= |r.value.typeTalk| + 5
  {
    match Classify(name)
    case None => None
    case Some(t) =>
      var code := TalkCode(t, href);
      assert code[..|t + "_"|] == t + "_";
      Some(Talk(t, code))
  }
}
