/** `spokesperson_fix` (scraper.py:137-143): the clean-up applied to every
    question text before the speaker annotation is looked for. Each `re.sub`
    of the source is one function here, scanning left to right as `re.sub`
    does. */
module Normalizer {
  import opened Agenda
  import opened Text

  // ---------------------------------------------------------------------------
  // "Only spaces were deleted"

  /** `b` is `a` with some of its plain spaces deleted and nothing else changed. */
  predicate DropsSpaces(a: string, b: string)
    decreases |a|
  {
    if a == [] then b == []
    else
      || (b != [] && a[0] == b[0] && DropsSpaces(a[1..], b[1..]))
      || (a[0] == ' ' && DropsSpaces(a[1..], b))
  }

  predicate AllSpaces(s: string) { forall j :: 0 <= j < |s| ==> s[j] == ' ' }

  /** The only whitespace is the plain space. */
  predicate SpacesOnly(s: string) { forall j :: 0 <= j < |s| && IsWs(s[j]) ==> s[j] == ' ' }

  lemma {:induction false} DropsNothing(a: string)
    ensures DropsSpaces(a, a)
  {
    if a != [] { DropsNothing(a[1..]); }
  }

  lemma {:induction false} DropsAllSpaces(a: string)
    requires AllSpaces(a)
    ensures DropsSpaces(a, [])
  {
    if a != [] { DropsAllSpaces(a[1..]); }
  }

  lemma {:induction false} DropsSpacesConcat(a1: string, a2: string, b1: string, b2: string)
    requires DropsSpaces(a1, b1) && DropsSpaces(a2, b2)
    ensures DropsSpaces(a1 + a2, b1 + b2)
    decreases |a1|
  {
    if a1 == [] {
      assert a1 + a2 == a2 && b1 + b2 == b2;
    } else {
      assert (a1 + a2)[1..] == a1[1..] + a2;
      if b1 != [] && a1[0] == b1[0] && DropsSpaces(a1[1..], b1[1..]) {
        DropsSpacesConcat(a1[1..], a2, b1[1..], b2);
        assert (b1 + b2)[1..] == b1[1..] + b2;
      } else {
        DropsSpacesConcat(a1[1..], a2, b1, b2);
      }
    }
  }

  lemma {:induction false} DropsSpacesTrans(a: string, b: string, c: string)
    requires DropsSpaces(a, b) && DropsSpaces(b, c)
    ensures DropsSpaces(a, c)
    decreases |a|
  {
    if a != [] {
      if b != [] && a[0] == b[0] && DropsSpaces(a[1..], b[1..]) {
        if c != [] && b[0] == c[0] && DropsSpaces(b[1..], c[1..]) {
          DropsSpacesTrans(a[1..], b[1..], c[1..]);
        } else {
          DropsSpacesTrans(a[1..], b[1..], c);
        }
      } else {
        DropsSpacesTrans(a[1..], b, c);
      }
    }
  }

  /** A character that is not a space cannot have been deleted. */
  lemma DropsSpacesHead(a: string, b: string)
    requires DropsSpaces(a, b) && a != [] && a[0] != ' '
    ensures b != [] && b[0] == a[0] && DropsSpaces(a[1..], b[1..])
  {
  }

  lemma CollapsedCons(s: string)
    requires s != []
    ensures Collapsed(s) <==>
      (IsWs(s[0]) ==> s[0] == ' ' && (|s| > 1 ==> !IsWs(s[1]))) && Collapsed(s[1..])
  {
    if (IsWs(s[0]) ==> s[0] == ' ' && (|s| > 1 ==> !IsWs(s[1]))) && Collapsed(s[1..]) {
      forall i | 0 <= i < |s| && IsWs(s[i])
        ensures s[i] == ' ' && (i + 1 < |s| ==> !IsWs(s[i + 1]))
      {
        if i > 0 { assert s[1..][i - 1] == s[i]; }
        if i > 0 && i + 1 < |s| { assert s[1..][i] == s[i + 1]; }
      }
    }
    if Collapsed(s) {
      forall i | 0 <= i < |s| - 1 && IsWs(s[1..][i])
        ensures s[1..][i] == ' ' && (i + 1 < |s| - 1 ==> !IsWs(s[1..][i + 1]))
      {
        assert s[1..][i] == s[i + 1];
      }
    }
  }

  /** Deleting spaces from collapsed text leaves it collapsed: each space
      there stands between two characters that are not whitespace. */
  lemma {:induction false} DropsSpacesKeepsCollapsed(a: string, b: string)
    requires Collapsed(a) && DropsSpaces(a, b)
    ensures Collapsed(b)
    decreases |a|
  {
    if a != [] {
      CollapsedCons(a);
      if b != [] && a[0] == b[0] && DropsSpaces(a[1..], b[1..]) {
        DropsSpacesKeepsCollapsed(a[1..], b[1..]);
        if |a| == 1 {
          assert b[1..] == [];
        } else if IsWs(a[0]) {
          DropsSpacesHead(a[1..], b[1..]);
          assert b[1] == a[1];
        }
        CollapsedCons(b);
      } else {
        DropsSpacesKeepsCollapsed(a[1..], b);
      }
    }
  }

  lemma CollapsedSpacesOnly(s: string)
    requires Collapsed(s)
    ensures SpacesOnly(s)
  {
  }

  // ---------------------------------------------------------------------------
  // re.sub('\xa0', ' ', s)

  function MapNbsp(s: string): (r: string)
    ensures |r| == |s|
    ensures forall j :: 0 <= j < |s| ==> r[j] == if s[j] == NBSP then ' ' else s[j]
  {
    if s == [] then [] else [if s[0] == NBSP then ' ' else s[0]] + MapNbsp(s[1..])
  }

  /** The non-breaking space is whitespace already, so mapping it to a space
      before collapsing changes nothing. */
  lemma {:induction false} NbspMapIsRedundant(s: string)
    ensures Collapse(MapNbsp(s)) == Collapse(s)
    decreases |s|
  {
    if s != [] {
      var m := MapNbsp(s);
      assert m[1..] == MapNbsp(s[1..]);
      if IsWs(s[0]) {
        var k := WsRun(s, 0);
        assert WsRun(m, 0) == k by { WsRunAgree(s, m, 0); }
        assert m[k..] == MapNbsp(s[k..]);
        NbspMapIsRedundant(s[k..]);
      } else {
        NbspMapIsRedundant(s[1..]);
      }
    }
  }

  /** Two strings whose characters are whitespace at the same places have
      whitespace runs of the same length. */
  lemma WsRunAgree(s: string, t: string, i: nat)
    requires |s| == |t| && i <= |s|
    requires forall j :: 0 <= j < |s| ==> (IsWs(s[j]) <==> IsWs(t[j]))
    ensures WsRun(s, i) == WsRun(t, i)
    decreases |s| - i
  {
    if i < |s| { WsRunAgree(s, t, i + 1); }
  }

  // ---------------------------------------------------------------------------
  // re.sub('\((?:\s+?)?(.+?)(?:\s+?)?\)', '(\\1)', s)

  /** `(?:\s+?)?\)` matches at `e`: optional whitespace, then `)`. */
  predicate ClosesAt(s: string, e: nat)
    requires e <= |s|
  {
    e + WsRun(s, e) < |s| && s[e + WsRun(s, e)] == ')'
  }

  /** The end of the lazy group `(.+?)` that starts at `p`, tried from `e`
      on: the least end after which the parenthesis can close, with no
      newline in the group (`.` does not match one). */
  function ContentEnd(s: string, p: nat, e: nat): (r: Option<nat>)
    requires p < e <= |s|
    requires NoNewline(s, p, e - 1)
    ensures r.Some? ==> e <= r.value <= |s| && NoNewline(s, p, r.value) && ClosesAt(s, r.value)
    ensures r.Some? ==> forall j :: e <= j < r.value ==> !ClosesAt(s, j)
    ensures r.None? ==> forall j :: e <= j <= |s| && NoNewline(s, p, j) ==> !ClosesAt(s, j)
    decreases |s| - e
  {
    if s[e - 1] == '\n' then None
    else if ClosesAt(s, e) then Some(e)
    else if e == |s| then None
    else ContentEnd(s, p, e + 1)
  }

  /** Where one parenthetical match of the pattern lies in `s` (which starts
      with it): the group is `s[open..close]`, the match is `s[..end]`. */
  datatype ParenMatch = ParenMatch(open: nat, close: nat, end: nat)

  predicate WellFormedParenMatch(s: string, m: ParenMatch)
  {
    && 1 <= m.open < m.close <= |s|
    && m.close + WsRun(s, m.close) < |s|
    && m.end == m.close + WsRun(s, m.close) + 1
    && s[m.end - 1] == ')'
    && forall j :: 1 <= j < m.open ==> IsWs(s[j])
  }

  /** The rest of the pattern, `(.+?)(?:\s+?)?\)`, with the group starting at `p`. */
  function GroupFrom(s: string, p: nat): (r: Option<ParenMatch>)
    requires 1 <= p <= |s|
    ensures r.Some? ==> r.value.open == p && p < r.value.close <= |s|
    ensures r.Some? ==> r.value.close + WsRun(s, r.value.close) < |s|
    ensures r.Some? ==> r.value.end == r.value.close + WsRun(s, r.value.close) + 1
    ensures r.Some? ==> s[r.value.end - 1] == ')'
  {
    if p < |s| then
      match ContentEnd(s, p, p + 1)
      case Some(e) => Some(ParenMatch(p, e, e + WsRun(s, e) + 1))
      case None => None
    else None
  }

  /** `(?:\s+?)?` before the group: greedy `?` around a lazy `+?`, so the
      engine tries 1, 2, ..., `w` leading whitespace characters in turn and
      only then none at all. */
  function ParenLead(s: string, m: nat, w: nat): (r: Option<ParenMatch>)
    requires |s| > 0 && s[0] == '(' && w == WsRun(s, 1) && m >= 1
    ensures r.Some? ==> WellFormedParenMatch(s, r.value)
    decreases w + 1 - m
  {
    if m <= w then
      var g := GroupFrom(s, 1 + m);
      if g.Some? then g else ParenLead(s, m + 1, w)
    else GroupFrom(s, 1)
  }

  /** On text whose only whitespace is the plain space, the substitution
      only deletes the whitespace just inside the parentheses. */
  function ParenTrim(s: string): (r: string)
    ensures SpacesOnly(s) ==> DropsSpaces(s, r)
    decreases |s|
  {
    if s == [] then []
    else if s[0] == '(' then
      match ParenLead(s, 1, WsRun(s, 1))
      case Some(m) =>
        var t := ParenTrim(s[m.end..]);
        assert SpacesOnly(s) ==> DropsSpaces(s, "(" + s[m.open..m.close] + ")" + t) by {
          if SpacesOnly(s) { ParenMatchDropsSpaces(s, m, t); }
        }
        "(" + s[m.open..m.close] + ")" + t
      case None => "(" + ParenTrim(s[1..])
    else [s[0]] + ParenTrim(s[1..])
  }

  lemma DropsLeadingSpaces(w: string, a: string, b: string)
    requires AllSpaces(w) && DropsSpaces(a, b)
    ensures DropsSpaces(w + a, b)
  {
    DropsAllSpaces(w);
    DropsSpacesConcat(w, a, [], b);
    assert [] + b == b;
  }

  lemma DropsKeepingPrefix(c: string, a: string, b: string)
    requires DropsSpaces(a, b)
    ensures DropsSpaces(c + a, c + b)
  {
    DropsNothing(c);
    DropsSpacesConcat(c, a, c, b);
  }

  lemma SpacesBetween(s: string, a: nat, b: nat)
    requires SpacesOnly(s) && a <= b <= |s|
    requires forall j :: a <= j < b ==> IsWs(s[j])
    ensures AllSpaces(s[a..b])
  {
  }

  lemma SplitAt(s: string, a: nat, b: nat)
    requires a <= b <= |s|
    ensures s[a..] == s[a..b] + s[b..]
  {
  }

  /** One parenthetical match deletes only the whitespace just inside the
      parentheses. */
  lemma ParenMatchDropsSpaces(s: string, m: ParenMatch, r: string)
    requires SpacesOnly(s) && WellFormedParenMatch(s, m) && s[0] == '('
    requires DropsSpaces(s[m.end..], r)
    ensures DropsSpaces(s, "(" + s[m.open..m.close] + ")" + r)
  {
    CloseDropsSpaces(s, m, r);
    OpenDropsSpaces(s, m, ")" + r);
    assert "(" + s[m.open..m.close] + (")" + r) == "(" + s[m.open..m.close] + ")" + r;
  }

  /** From the end of the group on, only the spaces before `)` go. */
  lemma CloseDropsSpaces(s: string, m: ParenMatch, r: string)
    requires SpacesOnly(s) && WellFormedParenMatch(s, m)
    requires DropsSpaces(s[m.end..], r)
    ensures DropsSpaces(s[m.close..], ")" + r)
  {
    var tail := s[m.end - 1..];
    assert tail == ")" + s[m.end..];
    DropsKeepingPrefix(")", s[m.end..], r);
    SplitAt(s, m.close, m.end - 1);
    SpacesBetween(s, m.close, m.end - 1);
    DropsLeadingSpaces(s[m.close..m.end - 1], tail, ")" + r);
  }

  /** Up to the end of the group, only the spaces after `(` go. */
  lemma OpenDropsSpaces(s: string, m: ParenMatch, t: string)
    requires SpacesOnly(s) && WellFormedParenMatch(s, m) && s[0] == '('
    requires DropsSpaces(s[m.close..], t)
    ensures DropsSpaces(s, "(" + s[m.open..m.close] + t)
  {
    var g := s[m.open..m.close];
    SplitAt(s, m.open, m.close);
    SplitAt(s, 1, m.open);
    SpacesBetween(s, 1, m.open);
    assert s == "(" + s[1..];
    DropsAroundGap("(", s[1..m.open], g, s[m.close..], t);
  }

  /** A parenthetical with at most one space inside each parenthesis loses
      those spaces: `( text )`, `(text )`, `( text)` all become `(text)`. */
  lemma ParenTrimTrims(w1: string, c: string, w2: string, rest: string)
    requires w1 == "" || w1 == " "
    requires w2 == "" || w2 == " "
    requires c != [] && !IsWs(c[0]) && !IsWs(c[|c| - 1])
    requires forall j :: 0 <= j < |c| ==> c[j] != '\n'
    requires forall j :: 1 <= j < |c| ==> c[j] != ')'
    ensures ParenTrim("(" + w1 + c + w2 + ")" + rest) == "(" + c + ")" + ParenTrim(rest)
  {
    var s := "(" + w1 + c + w2 + ")" + rest;
    var p := 1 + |w1|;
    var e := p + |c|;
    TrimmedPieces(s, w1, c, w2, rest);
    ParenTrimShaped(s, |w1|, c, |w2|, rest);
  }

  /** `ParenTrimTrims` for a string given by where its pieces lie. */
  lemma ParenTrimShaped(s: string, k1: nat, c: string, k2: nat, rest: string)
    requires k1 <= 1 && k2 <= 1 && c != [] && !IsWs(c[0]) && !IsWs(c[|c| - 1])
    requires forall j :: 0 <= j < |c| ==> c[j] != '\n'
    requires forall j :: 1 <= j < |c| ==> c[j] != ')'
    requires Shaped(s, k1, c, k2, rest)
    ensures ParenTrim(s) == "(" + c + ")" + ParenTrim(rest)
  {
    var p := 1 + k1;
    var e := p + |c|;
    ShapedParenthetical(s, k1, c, k2, rest);
    ParenLeadAt(s, p, e);
    ParenTrimPieces(s, p, e, e + WsRun(s, e) + 1, c, rest);
  }

  lemma ShapedParenthetical(s: string, k1: nat, c: string, k2: nat, rest: string)
    requires k1 <= 1 && k2 <= 1 && c != [] && !IsWs(c[0]) && !IsWs(c[|c| - 1])
    requires forall j :: 0 <= j < |c| ==> c[j] != '\n'
    requires forall j :: 1 <= j < |c| ==> c[j] != ')'
    requires Shaped(s, k1, c, k2, rest)
    ensures var p, e := 1 + k1, 1 + k1 + |c|;
      Parenthetical(s, p, e) && s[p..e] == c && s[e + WsRun(s, e) + 1..] == rest
  {
    var p := 1 + k1;
    var e := p + |c|;
    LeadRun(s, k1, c[0]);
    CloseRun(s, e, k2);
    forall j | p <= j < e ensures s[j] != '\n' && (j > p ==> s[j] != ')') {
      assert s[j] == c[j - p];
    }
    assert s[e + WsRun(s, e) + 1..] == rest;
  }

  /** `s` is `(`, `k1` whitespace characters, `c`, `k2` whitespace
      characters, `)` and `rest`. */
  predicate Shaped(s: string, k1: nat, c: string, k2: nat, rest: string)
  {
    var p, e := 1 + k1, 1 + k1 + |c|;
    && c != [] && |s| == e + k2 + 1 + |rest| && s[0] == '('
    && (k1 == 1 ==> IsWs(s[1])) && s[p] == c[0]
    && s[p..e] == c && (forall j :: p <= j < e ==> s[j] == c[j - p])
    && (k2 == 1 ==> IsWs(s[e])) && s[e + k2] == ')'
    && s[e + k2 + 1..] == rest
  }

  /** Where the pieces of `( text )` lie in it. */
  lemma TrimmedPieces(s: string, w1: string, c: string, w2: string, rest: string)
    requires w1 == "" || w1 == " "
    requires w2 == "" || w2 == " "
    requires c != []
    requires s == "(" + w1 + c + w2 + ")" + rest
    ensures Shaped(s, |w1|, c, |w2|, rest)
  {
    var p, e := 1 + |w1|, 1 + |w1| + |c|;
    assert s[p..e] == c;
    assert s[e + |w2| + 1..] == rest;
  }

  /** At most one whitespace character, then a character that is not one. */
  lemma LeadRun(s: string, k: nat, d: char)
    requires k <= 1 && 2 + k <= |s| && s[1 + k] == d && !IsWs(d)
    requires k == 1 ==> IsWs(s[1])
    ensures WsRun(s, 1) == k
  {
    if k == 1 { assert WsRun(s, 2) == 0; }
  }

  /** At most one whitespace character, then `)`. */
  lemma CloseRun(s: string, e: nat, k: nat)
    requires k <= 1 && e + k < |s| && s[e + k] == ')'
    requires k == 1 ==> IsWs(s[e])
    ensures WsRun(s, e) == k && ClosesAt(s, e)
  {
    if k == 1 { assert WsRun(s, e + 1) == 0; }
  }

  /** `ParenTrim` at a parenthetical whose group is `c`, followed by `rest`. */
  lemma ParenTrimPieces(s: string, p: nat, e: nat, n: nat, c: string, rest: string)
    requires |s| > 0 && s[0] == '(' && ParenLead(s, 1, WsRun(s, 1)) == Some(ParenMatch(p, e, n))
    requires p <= e <= |s| && n <= |s| && s[p..e] == c && s[n..] == rest
    ensures ParenTrim(s) == "(" + c + ")" + ParenTrim(rest)
  {
    ParenTrimStep(s, p, e, n);
  }

  /** One step of `ParenTrim` at a parenthetical that matches. */
  lemma ParenTrimStep(s: string, p: nat, e: nat, n: nat)
    requires |s| > 0 && s[0] == '(' && ParenLead(s, 1, WsRun(s, 1)) == Some(ParenMatch(p, e, n))
    ensures ParenTrim(s) == "(" + s[p..e] + ")" + ParenTrim(s[n..])
  {
  }

  /** `s` opens with `(` and at most one whitespace character, then a group
      `s[p..e]` with no newline and no `)` after its first character that
      ends in a character that is not whitespace, and then the parenthesis
      closes. */
  predicate Parenthetical(s: string, p: nat, e: nat)
  {
    && |s| > 0 && s[0] == '(' && WsRun(s, 1) <= 1 && p == 1 + WsRun(s, 1)
    && p < e <= |s| && !IsWs(s[e - 1]) && ClosesAt(s, e)
    && (forall j :: p <= j < e ==> s[j] != '\n')
    && (forall j :: p < j < e ==> s[j] != ')')
  }

  /** The group of the parenthetical at the head of `s` is `s[p..e]`. */
  lemma ParenLeadAt(s: string, p: nat, e: nat)
    requires Parenthetical(s, p, e)
    ensures ParenLead(s, 1, WsRun(s, 1)) == Some(ParenMatch(p, e, e + WsRun(s, e) + 1))
  {
    InsideNeverCloses(s, p, e);
    GroupFromAt(s, p, e);
    if WsRun(s, 1) == 1 {
      ParenLeadOne(s);
    } else {
      ParenLeadNone(s);
    }
  }

  /** With one whitespace character after `(`, the group is tried after it first. */
  lemma ParenLeadOne(s: string)
    requires |s| > 0 && s[0] == '(' && WsRun(s, 1) == 1 && GroupFrom(s, 2).Some?
    ensures ParenLead(s, 1, 1) == GroupFrom(s, 2)
  {
  }

  /** With no whitespace after `(`, the group starts right after it. */
  lemma ParenLeadNone(s: string)
    requires |s| > 0 && s[0] == '(' && WsRun(s, 1) == 0
    ensures ParenLead(s, 1, 0) == GroupFrom(s, 1)
  {
  }

  /** The parenthesis cannot close at any of `a..b-1`. */
  predicate NeverClosesIn(s: string, a: nat, b: nat)
    requires b <= |s|
  {
    forall j :: a <= j < b ==> !ClosesAt(s, j)
  }

  /** The group starting at `p` ends at the first place the parenthesis closes. */
  lemma GroupFromAt(s: string, p: nat, e: nat)
    requires 1 <= p < e <= |s| && ClosesAt(s, e)
    requires NoNewline(s, p, e) && NeverClosesIn(s, p + 1, e)
    ensures GroupFrom(s, p) == Some(ParenMatch(p, e, e + WsRun(s, e) + 1))
  {
    assert NoNewline(s, p, p);
    ContentEndReaches(s, p, p + 1, e);
    GroupFromEnd(s, p, e);
  }

  /** The group found from `p` ends where the lazy search ends. */
  lemma GroupFromEnd(s: string, p: nat, e: nat)
    requires 1 <= p < |s| && ContentEnd(s, p, p + 1) == Some(e)
    ensures GroupFrom(s, p) == Some(ParenMatch(p, e, e + WsRun(s, e) + 1))
  {
  }

  /** Inside text that ends in a non-whitespace character and holds no `)`
      after its first character, the parenthesis cannot close. */
  lemma InsideNeverCloses(s: string, p: nat, e: nat)
    requires p < e <= |s| && !IsWs(s[e - 1])
    requires forall j :: p < j < e ==> s[j] != ')'
    ensures NeverClosesIn(s, p + 1, e)
  {
    forall j | p < j < e ensures !ClosesAt(s, j) {
      var k := WsRun(s, j);
      assert !IsWs(s[e - 1]);
      assert j + k <= e - 1;
    }
  }

  /** The lazy group stops at the first place the parenthesis can close. */
  lemma {:induction false} ContentEndReaches(s: string, p: nat, e0: nat, e: nat)
    requires p < e0 <= e <= |s|
    requires NoNewline(s, p, e) && ClosesAt(s, e)
    requires NeverClosesIn(s, e0, e)
    ensures ContentEnd(s, p, e0) == Some(e)
    decreases e - e0
  {
    assert s[e0 - 1] != '\n';
    if e0 < e {
      assert !ClosesAt(s, e0);
      ContentEndReaches(s, p, e0 + 1, e);
    }
  }

  // ---------------------------------------------------------------------------
  // re.sub(" \.", ".", s)

  /** Only the spaces in front of full stops are deleted. */
  function SpaceDot(s: string): (r: string)
    ensures DropsSpaces(s, r)
    decreases |s|
  {
    if s == [] then []
    else if |s| >= 2 && s[0] == ' ' && s[1] == '.' then
      var t := SpaceDot(s[2..]);
      assert s[1..][1..] == s[2..];
      assert ("." + t)[1..] == t;
      "." + t
    else [s[0]] + SpaceDot(s[1..])
  }

  // ---------------------------------------------------------------------------
  // re.sub("Д\s+?оповідач", "Доповідач", s), behind a re.I gate

  const OPOVIDACH: string := "оповідач"
  const DOPOVIDACH: string := "Д" + OPOVIDACH

  /** End of a match of `Д\s+?оповідач` at the start of `s`. The lazy `\s+?`
      must reach the `о`, which is not whitespace, so it takes the whole run. */
  function DoklHere(s: string): (r: Option<nat>)
    ensures r.Some? ==> |s| > 0 && r.value == 1 + WsRun(s, 1) + |OPOVIDACH| <= |s|
  {
    if |s| > 0 && s[0] == 'Д' then
      var k := WsRun(s, 1);
      if k >= 1 && HasPrefix(s[1 + k..], OPOVIDACH) then Some(1 + k + |OPOVIDACH|) else None
    else None
  }

  /** No `Д`, whitespace, `оповідач` anywhere. */
  predicate NoDoklArtifact(s: string)
  {
    forall i :: 0 <= i < |s| ==> DoklHere(s[i..]).None?
  }

  /** On text whose only whitespace is the plain space, the substitution
      only deletes the spaces between `Д` and `оповідач`. */
  function DoklFix(s: string): (r: string)
    ensures SpacesOnly(s) ==> DropsSpaces(s, r)
    decreases |s|
  {
    if s == [] then []
    else match DoklHere(s)
      case Some(e) =>
        var t := DoklFix(s[e..]);
        assert SpacesOnly(s) ==> DropsSpaces(s, DOPOVIDACH + t) by {
          if SpacesOnly(s) { DoklMatchDropsSpaces(s, t); }
        }
        DOPOVIDACH + t
      case None => [s[0]] + DoklFix(s[1..])
  }

  /** `re.I` equality of two characters. */
  predicate SameIgnoringCase(c: char, d: char) { Lower(c) == Lower(d) }

  predicate HasPrefixIgnoringCase(s: string, p: string)
  {
    |p| <= |s| && forall j :: 0 <= j < |p| ==> SameIgnoringCase(s[j], p[j])
  }

  /** `Д\s+?оповідач` under `re.I` matches at the start of `s`. */
  predicate DoklCaselessHere(s: string)
  {
    |s| > 0 && SameIgnoringCase(s[0], 'Д') && WsRun(s, 1) >= 1
      && HasPrefixIgnoringCase(s[1 + WsRun(s, 1)..], OPOVIDACH)
  }

  /** `re.search("Д\s+?оповідач", s, re.I)` finds something. */
  predicate ContainsDoklCaseless(s: string)
    decreases |s|
  {
    s != [] && (DoklCaselessHere(s) || ContainsDoklCaseless(s[1..]))
  }

  lemma DoklHereIsCaseless(s: string)
    ensures DoklHere(s).Some? ==> DoklCaselessHere(s)
  {
    if DoklHere(s).Some? {
      var k := WsRun(s, 1);
      assert s[1 + k..][..|OPOVIDACH|] == OPOVIDACH;
    }
  }

  /** Text the case-blind search finds nothing in is left alone by the
      case-sensitive substitution, so the gate never changes the outcome. */
  lemma {:induction false} DoklGateIsRedundant(s: string)
    requires !ContainsDoklCaseless(s)
    ensures DoklFix(s) == s && NoDoklArtifact(s)
    decreases |s|
  {
    if s != [] {
      DoklHereIsCaseless(s);
      DoklGateIsRedundant(s[1..]);
      forall i | 0 <= i < |s| ensures DoklHere(s[i..]).None? {
        if i > 0 { assert s[i..] == s[1..][i - 1..]; }
      }
    }
  }

  /** No `Д` among the first `n` characters. */
  predicate NoCapitalDe(s: string, n: nat)
    requires n <= |s|
  {
    forall j :: 0 <= j < n ==> s[j] != 'Д'
  }

  /** Every character the substitution emitted before its first `Д` was
      copied from the input. */
  lemma {:induction false} DoklFixCopiesPrefix(t: string, n: nat)
    requires n <= |DoklFix(t)|
    ensures NoCapitalDe(DoklFix(t), n) ==> n <= |t| && t[..n] == DoklFix(t)[..n]
    decreases |t|
  {
    if n > 0 && t != [] {
      match DoklHere(t)
      case Some(e) =>
        assert DoklFix(t)[0] == 'Д';
      case None =>
        var rest := DoklFix(t[1..]);
        assert DoklFix(t) == [t[0]] + rest;
        DoklFixCopiesPrefix(t[1..], n - 1);
        CopiedHead(t[0], t[1..], rest, n);
        assert t == [t[0]] + t[1..];
    }
  }

  /** A character copied in front of a copied prefix extends it. */
  lemma CopiedHead(c: char, u: string, rest: string, n: nat)
    requires 0 < n <= |rest| + 1
    requires NoCapitalDe(rest, n - 1) ==> n - 1 <= |u| && u[..n - 1] == rest[..n - 1]
    ensures NoCapitalDe([c] + rest, n) ==> n <= |u| + 1 && ([c] + u)[..n] == ([c] + rest)[..n]
  {
    if NoCapitalDe([c] + rest, n) {
      assert NoCapitalDe(rest, n - 1) by {
        forall j | 0 <= j < n - 1 ensures rest[j] != 'Д' {
          assert rest[j] == ([c] + rest)[j + 1];
        }
      }
      ConsTake(c, u, n - 1);
      ConsTake(c, rest, n - 1);
    }
  }

  /** The replacement text cannot start an artifact of its own. */
  lemma ReplacementIsClean(rest: string)
    requires NoDoklArtifact(rest)
    ensures NoDoklArtifact(DOPOVIDACH + rest)
  {
    var out := DOPOVIDACH + rest;
    forall i | 0 <= i < |out| ensures DoklHere(out[i..]).None? {
      if i >= |DOPOVIDACH| {
        assert out[i..] == rest[i - |DOPOVIDACH|..];
      } else if i == 0 {
        assert out[1] == 'о';
        assert WsRun(out, 1) == 0;
      } else {
        assert out[i..][0] == DOPOVIDACH[i];
      }
    }
  }

  /** Whether the pattern matches at the head depends only on the characters
      the match covers. */
  lemma DoklHereOnPrefix(u: string, v: string, n: nat)
    requires n <= |u| && n <= |v| && u[..n] == v[..n]
    requires DoklHere(v).Some? && DoklHere(v).value <= n
    ensures DoklHere(u) == DoklHere(v)
  {
    var k := WsRun(v, 1);
    assert u[0] == u[..n][0] && v[0] == v[..n][0];
    assert u[1..n] == u[..n][1..] && v[1..n] == v[..n][1..];
    WsRunOnPrefix(u, v, 1, n);
    var e := 1 + k + |OPOVIDACH|;
    assert u[1 + k..][..|OPOVIDACH|] == u[..n][1 + k..e];
    assert v[1 + k..][..|OPOVIDACH|] == v[..n][1 + k..e];
  }

  /** An artifact at the head of the output, before which the substitution
      copied the first character, was in the input already. */
  lemma ArtifactWasCopied(c: char, t: string)
    ensures DoklHere([c] + DoklFix(t)).Some? ==> DoklHere([c] + t).Some?
  {
    var out := [c] + DoklFix(t);
    var rest := DoklFix(t);
    if DoklHere(out).Some? {
      var e := DoklHere(out).value;
      ArtifactTailFree(c, rest);
      DoklFixCopiesPrefix(t, e - 1);
      ConsTake(c, t, e - 1);
      ConsTake(c, rest, e - 1);
      DoklHereOnPrefix([c] + t, out, e);
    }
  }

  /** A prefix of a string with a character in front. */
  lemma ConsTake(c: char, t: string, n: nat)
    requires n <= |t|
    ensures ([c] + t)[..n + 1] == [c] + t[..n]
  {
  }

  /** Inside an artifact after its first character there is no `Д`. */
  lemma ArtifactTailFree(c: char, rest: string)
    requires DoklHere([c] + rest).Some?
    ensures DoklHere([c] + rest).value - 1 <= |rest|
    ensures NoCapitalDe(rest, DoklHere([c] + rest).value - 1)
  {
    var out := [c] + rest;
    var k := WsRun(out, 1);
    var e := DoklHere(out).value;
    var o := out[1 + k..][..|OPOVIDACH|];
    assert o == OPOVIDACH;
    forall j | 0 <= j < e - 1 ensures rest[j] != 'Д' {
      assert rest[j] == out[j + 1];
      if j >= k { assert o[j - k] == out[j + 1]; }
    }
  }

  /** After the substitution no `Д`, whitespace, `оповідач` is left, not even
      one that the substitution itself could have formed. */
  lemma {:induction false} DoklFixLeavesNoArtifact(t: string)
    ensures NoDoklArtifact(DoklFix(t))
    decreases |t|
  {
    if t != [] {
      var out := DoklFix(t);
      match DoklHere(t)
      case Some(e) =>
        DoklFixLeavesNoArtifact(t[e..]);
        ReplacementIsClean(DoklFix(t[e..]));
      case None =>
        var rest := DoklFix(t[1..]);
        DoklFixLeavesNoArtifact(t[1..]);
        assert out == [t[0]] + rest;
        assert t == [t[0]] + t[1..];
        ArtifactWasCopied(t[0], t[1..]);
        forall i | 0 <= i < |out| ensures DoklHere(out[i..]).None? {
          if i > 0 { assert out[i..] == rest[i - 1..]; }
        }
    }
  }

  /** Whitespace runs depend only on the characters they cover and the one
      after them. */
  lemma WsRunOnPrefix(s: string, t: string, i: nat, n: nat)
    requires i < n <= |s| && n <= |t| && s[i..n] == t[i..n]
    requires i + WsRun(t, i) < n
    ensures WsRun(s, i) == WsRun(t, i)
    decreases n - i
  {
    assert s[i] == s[i..n][0] && t[i] == t[i..n][0];
    if IsWs(t[i]) {
      assert s[i + 1..n] == s[i..n][1..];
      assert t[i + 1..n] == t[i..n][1..];
      WsRunOnPrefix(s, t, i + 1, n);
    }
  }

  // ---------------------------------------------------------------------------
  // spokesperson_fix

  /** The `re.I` pre-check and the `\xa0` mapping are both redundant:
      `spokesperson_fix` is the four substitutions in a row. */
  function SpokespersonFix(s: string): (r: string)
    ensures r == DoklFix(SpaceDot(ParenTrim(Collapse(s))))
  {
    var x := SpaceDot(ParenTrim(Collapse(MapNbsp(s))));
    NbspMapIsRedundant(s);
    assert !ContainsDoklCaseless(x) ==> DoklFix(x) == x by {
      if !ContainsDoklCaseless(x) { DoklGateIsRedundant(x); }
    }
    if !ContainsDoklCaseless(x) then x else DoklFix(x)
  }

  /** The normaliser's output is collapsed (so holds no non-breaking space
      and no two whitespace characters in a row) and free of the split
      `Д оповідач`; apart from turning each whitespace run into one space, it
      only ever deletes spaces. */
  lemma SpokespersonFixNormalises(s: string)
    ensures Collapsed(SpokespersonFix(s))
    ensures NBSP !in SpokespersonFix(s)
    ensures NoDoklArtifact(SpokespersonFix(s))
    ensures DropsSpaces(Collapse(s), SpokespersonFix(s))
  {
    var c := Collapse(MapNbsp(s));
    NbspMapIsRedundant(s);
    var p := ParenTrim(c);
    CollapsedSpacesOnly(c);
    DropsSpacesKeepsCollapsed(c, p);
    var d := SpaceDot(p);
    DropsSpacesKeepsCollapsed(p, d);
    DropsSpacesTrans(c, p, d);
    var r := SpokespersonFix(s);
    if ContainsDoklCaseless(d) {
      CollapsedSpacesOnly(d);
      DropsSpacesTrans(c, d, r);
      DropsSpacesKeepsCollapsed(d, r);
      DoklFixLeavesNoArtifact(d);
    } else {
      DoklGateIsRedundant(d);
      DropsNothing(d);
    }
    assert NBSP !in r by {
      if NBSP in r { var j :| 0 <= j < |r| && r[j] == NBSP; assert IsWs(r[j]); }
    }
  }

  /** Whatever the normaliser does, the text other than whitespace is kept,
      character by character and in order. */
  lemma SpokespersonFixKeepsText(s: string)
    ensures NonWs(SpokespersonFix(s)) == NonWs(s)
  {
    SpokespersonFixNormalises(s);
    DropsSpacesKeepsText(Collapse(s), SpokespersonFix(s));
    CollapseKeepsText(s);
  }

  /** Deleting spaces keeps every other character, in order. */
  lemma {:induction false} DropsSpacesKeepsText(a: string, b: string)
    requires DropsSpaces(a, b)
    ensures NonWs(a) == NonWs(b)
    decreases |a|
  {
    if a != [] {
      if b != [] && a[0] == b[0] && DropsSpaces(a[1..], b[1..]) {
        DropsSpacesKeepsText(a[1..], b[1..]);
      } else {
        DropsSpacesKeepsText(a[1..], b);
      }
    }
  }

  /** One substitution deletes only the spaces between `Д` and `оповідач`. */
  lemma DoklMatchDropsSpaces(s: string, r: string)
    requires SpacesOnly(s) && DoklHere(s).Some? && DropsSpaces(s[DoklHere(s).value..], r)
    ensures DropsSpaces(s, DOPOVIDACH + r)
  {
    var k := WsRun(s, 1);
    var w, t := s[1..1 + k], s[DoklHere(s).value..];
    DoklPieces(s);
    SpacesBetween(s, 1, 1 + k);
    DropsAroundGap("Д", w, OPOVIDACH, t, r);
  }

  /** Dropping the spaces between two kept pieces. */
  lemma DropsAroundGap(d: string, w: string, o: string, t: string, r: string)
    requires AllSpaces(w) && DropsSpaces(t, r)
    ensures DropsSpaces(d + (w + (o + t)), (d + o) + r)
  {
    DropsKeepingPrefix(o, t, r);
    DropsLeadingSpaces(w, o + t, o + r);
    DropsKeepingPrefix(d, w + (o + t), o + r);
    assert (d + o) + r == d + (o + r);
  }

  /** Where the pieces of a match lie. */
  lemma DoklPieces(s: string)
    requires DoklHere(s).Some?
    ensures var k := WsRun(s, 1);
      s == "Д" + (s[1..1 + k] + (OPOVIDACH + s[DoklHere(s).value..]))
  {
    var k := WsRun(s, 1);
    var e := DoklHere(s).value;
    assert s[1 + k..][..|OPOVIDACH|] == OPOVIDACH;
    assert s[1 + k..] == OPOVIDACH + s[e..];
    assert s[1..] == s[1..1 + k] + s[1 + k..];
  }

  // ---------------------------------------------------------------------------
  // Normalising twice changes nothing

  /** Running `spokesperson_fix` on its own output gives the same text back. */
  lemma SpokespersonFixIdempotent(s: string)
    ensures SpokespersonFix(SpokespersonFix(s)) == SpokespersonFix(s)
  {
    var c := Collapse(s);
    var p := ParenTrim(c);
    var d := SpaceDot(p);
    var y := DoklFix(d);
    CollapsedSpacesOnly(c);
    DropsSpacesKeepsCollapsed(c, p);
    DropsSpacesKeepsCollapsed(p, d);
    CollapsedSpacesOnly(d);
    DropsSpacesKeepsCollapsed(d, y);
    DropsSpacesTrans(p, d, y);
    ParenTrimSettles(c, y);
    SpaceDotLeaves(p);
    DropsKeepsNoSpaceDot(d, y);
    NoSpaceDotFixed(y);
    DoklFixLeavesNoArtifact(d);
    NoArtifactFixed(y);
    CollapseFixesCollapsed(y);
  }

  /** No `ch` at or after position `k`. */
  predicate Avoids(s: string, ch: char, k: nat)
  {
    forall j :: k <= j < |s| ==> s[j] != ch
  }

  lemma {:induction false} DropsKeepsAvoid(a: string, b: string, ch: char, k: nat)
    requires DropsSpaces(a, b) && Avoids(a, ch, k)
    ensures Avoids(b, ch, k)
    decreases |a|
  {
    if a != [] {
      var k' := if k == 0 then 0 else k - 1;
      assert Avoids(a[1..], ch, k') by {
        forall j | k' <= j < |a| - 1 ensures a[1..][j] != ch { assert a[1..][j] == a[j + 1]; }
      }
      if b != [] && a[0] == b[0] && DropsSpaces(a[1..], b[1..]) {
        DropsKeepsAvoid(a[1..], b[1..], ch, k');
        forall j | k <= j < |b| ensures b[j] != ch {
          if j > 0 { assert b[j] == b[1..][j - 1]; }
        }
      } else {
        DropsKeepsAvoid(a[1..], b, ch, k');
      }
    }
  }

  /** What is left of a concatenation after deleting spaces is what is left
      of each part, concatenated. */
  lemma {:induction false} DropsSplit(u: string, v: string, y: string) returns (u': string, v': string)
    requires DropsSpaces(u + v, y)
    ensures y == u' + v' && DropsSpaces(u, u') && DropsSpaces(v, v')
    decreases |u|
  {
    if u == [] {
      assert u + v == v;
      u', v' := [], y;
    } else {
      assert (u + v)[1..] == u[1..] + v;
      if y != [] && u[0] == y[0] && DropsSpaces(u[1..] + v, y[1..]) {
        var a, b := DropsSplit(u[1..], v, y[1..]);
        u', v' := [u[0]] + a, b;
        assert u'[1..] == a;
        assert y == [y[0]] + y[1..];
      } else {
        u', v' := DropsSplit(u[1..], v, y);
      }
    }
  }

  /** A last character that is not a space cannot have been deleted. */
  lemma {:induction false} DropsSpacesLast(a: string, b: string)
    requires DropsSpaces(a, b) && a != [] && a[|a| - 1] != ' '
    ensures b != [] && b[|b| - 1] == a[|a| - 1]
    decreases |a|
  {
    if |a| == 1 {
      DropsSpacesHead(a, b);
    } else {
      assert a[1..][|a| - 2] == a[|a| - 1];
      if b != [] && a[0] == b[0] && DropsSpaces(a[1..], b[1..]) {
        DropsSpacesLast(a[1..], b[1..]);
        assert b[|b| - 1] == b[1..][|b| - 2];
      } else {
        DropsSpacesLast(a[1..], b);
      }
    }
  }

  lemma CollapsedSuffix(s: string, k: nat)
    requires Collapsed(s) && k <= |s|
    ensures Collapsed(s[k..])
  {
    var t := s[k..];
    forall i | 0 <= i < |t| && IsWs(t[i]) ensures t[i] == ' ' { assert t[i] == s[k + i]; }
    forall i, j | 0 <= i < |t| && 0 <= j < |t| && j == i + 1 ensures !(IsWs(t[i]) && IsWs(t[j])) {
      assert t[i] == s[k + i] && t[j] == s[k + j];
    }
  }

  /** Collapsed text holds no two whitespace characters in a row. */
  lemma CollapsedRun(s: string, i: nat)
    requires Collapsed(s) && i <= |s|
    ensures WsRun(s, i) <= 1
  {
    if i + 1 < |s| && IsWs(s[i]) {
      assert !IsWs(s[i + 1]);
      assert WsRun(s, i + 1) == 0;
    }
  }

  /** A `)` closes the parenthesis where it stands. */
  lemma CloseCharCloses(s: string, j: nat)
    requires j < |s|
    ensures s[j] == ')' ==> ClosesAt(s, j)
  {
  }

  /** Whitespace just before a place where the parenthesis closes lets it
      close one place earlier. */
  lemma WsBeforeCloses(s: string, e: nat)
    requires 0 < e <= |s| && ClosesAt(s, e)
    ensures IsWs(s[e - 1]) ==> ClosesAt(s, e - 1)
  {
    if IsWs(s[e - 1]) { assert WsRun(s, e - 1) == 1 + WsRun(s, e); }
  }

  /** With no `)` from `e` on, the lazy group never ends. */
  lemma {:induction false} NoCloseAfter(s: string, p: nat, e: nat)
    requires p < e <= |s| && NoNewline(s, p, e - 1) && Avoids(s, ')', e)
    ensures ContentEnd(s, p, e).None?
    decreases |s| - e
  {
    if s[e - 1] != '\n' && e < |s| {
      assert NoNewline(s, p, e);
      NoCloseAfter(s, p, e + 1);
    }
  }

  /** A group that starts with a character that is not whitespace ends with
      one, and holds no `)` after its first character. */
  lemma GroupFacts(c: string, p: nat, m: ParenMatch)
    requires 1 <= p < |c| && !IsWs(c[p]) && GroupFrom(c, p) == Some(m)
    ensures !IsWs(c[m.close - 1])
    ensures forall j :: p < j < m.close ==> c[j] != ')'
  {
    assert ContentEnd(c, p, p + 1) == Some(m.close);
    forall j | p < j < m.close ensures c[j] != ')' { CloseCharCloses(c, j); }
    WsBeforeCloses(c, m.close);
  }

  /** A group of collapsed text that the whole match is found again on after
      spaces are deleted: a single space (the match `( )`, with no `)` after
      it), or text without newlines that begins and ends with a character
      that is not whitespace and holds `)` at most at its start. */
  predicate TrimmedGroup(g: string, rest: string)
  {
    || (g == " " && Avoids(rest, ')', 0))
    || TextGroup(g)
  }

  /** The group of the parenthetical at the head of collapsed text. */
  lemma LeadFacts(c: string, m: ParenMatch)
    requires Collapsed(c) && |c| > 0 && c[0] == '(' && ParenLead(c, 1, WsRun(c, 1)) == Some(m)
    ensures m.open <= m.close <= m.end <= |c| && TrimmedGroup(c[m.open..m.close], c[m.end..])
  {
    CollapsedRun(c, 1);
    if WsRun(c, 1) == 1 {
      if GroupFrom(c, 2).Some? {
        ParenLeadOne(c);
        GroupTrimmed(c, 2, m);
      } else {
        assert ParenLead(c, 2, 1) == GroupFrom(c, 1);
        SpaceGroup(c, m);
      }
    } else {
      ParenLeadNone(c);
      GroupTrimmed(c, 1, m);
    }
  }

  /** `GroupFacts`, for the group as a string. */
  lemma GroupTrimmed(c: string, p: nat, m: ParenMatch)
    requires Collapsed(c) && 1 <= p < |c| && !IsWs(c[p]) && GroupFrom(c, p) == Some(m)
    requires m.end <= |c|
    ensures TrimmedGroup(c[m.open..m.close], c[m.end..])
  {
    GroupFacts(c, p, m);
    var g := c[p..m.close];
    assert g[0] == c[p] && g[|g| - 1] == c[m.close - 1];
    forall j | 0 <= j < |g| ensures g[j] != '\n' && (j >= 1 ==> g[j] != ')') {
      assert g[j] == c[p + j];
    }
  }

  /** `( )` is matched only when no `)` follows it. */
  lemma SpaceGroup(c: string, m: ParenMatch)
    requires Collapsed(c) && |c| > 0 && c[0] == '(' && WsRun(c, 1) == 1
    requires GroupFrom(c, 2).None? && GroupFrom(c, 1) == Some(m)
    ensures m == ParenMatch(1, 2, 3) && TrimmedGroup(c[1..2], c[3..])
  {
    assert ContentEnd(c, 1, 2) == Some(m.close);
    assert ContentEnd(c, 2, 3).None?;
    assert NoNewline(c, 2, m.close);
    assert m.close == 2;
    assert WsRun(c, 2) == 0;
    assert c[1..2] == [c[1]];
    var rest := c[3..];
    forall j | 0 <= j < |rest| ensures rest[j] != ')' {
      assert rest[j] == c[3 + j];
      CloseCharCloses(c, 3 + j);
      assert NoNewline(c, 2, 3 + j);
    }
  }

  /** Where no parenthetical matches at the head of collapsed text, no `)`
      follows the `(` and the character after it. */
  lemma LeadNone(c: string)
    requires Collapsed(c) && |c| > 0 && c[0] == '(' && ParenLead(c, 1, WsRun(c, 1)).None?
    ensures Avoids(c, ')', 2)
  {
    CollapsedRun(c, 1);
    if WsRun(c, 1) == 1 {
      assert ParenLead(c, 2, 1) == GroupFrom(c, 1);
    } else {
      ParenLeadNone(c);
    }
    forall j | 2 <= j < |c| ensures c[j] != ')' {
      CloseCharCloses(c, j);
      assert NoNewline(c, 1, j);
    }
  }

  /** `( )` followed by text without `)` is left alone. */
  lemma SpacePiece(r: string)
    requires Avoids(r, ')', 0)
    ensures ParenTrim("(" + " " + ")" + r) == "(" + " " + ")" + r
  {
    var s := "(" + " " + ")" + r;
    assert s[0] == '(' && s[1] == ' ' && s[2] == ')';
    assert s[1..2] == " " && s[3..] == r;
    assert WsRun(s, 2) == 0;
    NoCloseAfter(s, 2, 3);
    assert ParenLead(s, 1, 1) == GroupFrom(s, 1);
    assert ContentEnd(s, 1, 2) == Some(2);
    ParenTrimStep(s, 1, 2, 3);
    NoCloseFixed(r);
  }

  /** No group can start anywhere in text without `)` from position `p + 1` on. */
  lemma GroupNoClose(s: string, p: nat)
    requires 1 <= p <= |s| && Avoids(s, ')', p + 1)
    ensures GroupFrom(s, p).None?
  {
    if p < |s| { NoCloseAfter(s, p, p + 1); }
  }

  lemma {:induction false} ParenLeadNoClose(s: string, m: nat, w: nat)
    requires |s| > 0 && s[0] == '(' && w == WsRun(s, 1) && m >= 1
    requires Avoids(s, ')', 2)
    ensures ParenLead(s, m, w).None?
    decreases w + 1 - m
  {
    if m <= w {
      GroupNoClose(s, 1 + m);
      ParenLeadNoClose(s, m + 1, w);
    } else {
      GroupNoClose(s, 1);
    }
  }

  /** A `(` with no `)` after the character that follows it is copied. */
  lemma Unmatched(t: string)
    requires Avoids(t, ')', 1)
    ensures ParenTrim("(" + t) == "(" + ParenTrim(t)
  {
    var s := "(" + t;
    ParenLeadNoClose(s, 1, WsRun(s, 1));
    assert s[1..] == t;
  }

  /** Text with no `)` after its first character is left alone. */
  lemma {:induction false} NoCloseFixed(s: string)
    requires Avoids(s, ')', 1)
    ensures ParenTrim(s) == s
    decreases |s|
  {
    if s != [] {
      NoCloseFixed(s[1..]);
      if s[0] == '(' { Unmatched(s[1..]); }
      assert s == [s[0]] + s[1..];
    }
  }

  /** Deleting spaces from what the parenthesis pattern left of collapsed
      text gives text the pattern leaves alone. */
  lemma {:induction false} ParenTrimSettles(c: string, y: string)
    requires Collapsed(c) && DropsSpaces(ParenTrim(c), y)
    ensures ParenTrim(y) == y
    decreases |c|, 0
  {
    if c == [] {
    } else if c[0] == '(' {
      match ParenLead(c, 1, WsRun(c, 1))
      case Some(m) =>
        LeadFacts(c, m);
        CollapsedSuffix(c, m.end);
        MatchedSettles(c[m.open..m.close], c[m.end..], y);
      case None =>
        LeadNone(c);
        UnmatchedSettles(c, y);
    } else {
      var t := ParenTrim(c[1..]);
      var a := [c[0]] + t;
      assert a[1..] == t;
      CollapsedSuffix(c, 1);
      if y != [] && a[0] == y[0] && DropsSpaces(t, y[1..]) {
        ParenTrimSettles(c[1..], y[1..]);
        assert y == [y[0]] + y[1..];
      } else {
        ParenTrimSettles(c[1..], y);
      }
    }
  }

  /** `ParenTrimSettles` at a `(` that no parenthetical matches. */
  lemma UnmatchedSettles(c: string, y: string)
    requires c != [] && Avoids(c, ')', 2) && DropsSpaces("(" + ParenTrim(c[1..]), y)
    ensures ParenTrim(y) == y
  {
    assert Avoids(c[1..], ')', 1) by {
      forall j | 1 <= j < |c| - 1 ensures c[1..][j] != ')' { assert c[1..][j] == c[j + 1]; }
    }
    NoCloseFixed(c[1..]);
    var a := "(" + c[1..];
    DropsSpacesHead(a, y);
    assert a[1..] == c[1..];
    DropsKeepsAvoid(c[1..], y[1..], ')', 1);
    Unmatched(y[1..]);
    NoCloseFixed(y[1..]);
    assert y == "(" + y[1..];
  }

  /** `ParenTrimSettles` at a parenthetical with group `g`, followed by `rest`. */
  lemma {:induction false} MatchedSettles(g: string, rest: string, y: string)
    requires Collapsed(rest) && TrimmedGroup(g, rest)
    requires DropsSpaces("(" + g + ")" + ParenTrim(rest), y)
    ensures ParenTrim(y) == y
    decreases |rest|, 2
  {
    var g', y2 := MatchPieces(g, ParenTrim(rest), y);
    if g == " " {
      SpaceSettles(g', rest, y2);
    } else {
      TextSettles(g, g', rest, y2);
    }
  }

  /** `MatchedSettles` for the group `( )`. */
  lemma SpaceSettles(g': string, rest: string, y2: string)
    requires Avoids(rest, ')', 0) && DropsSpaces(" ", g') && DropsSpaces(ParenTrim(rest), y2)
    ensures ParenTrim("(" + g' + ")" + y2) == "(" + g' + ")" + y2
  {
    NoCloseFixed(rest);
    DropsKeepsAvoid(rest, y2, ')', 0);
    DropsOneSpace(g');
    if g' == " " { SpacePiece(y2); } else { SpaceDropped(y2); }
  }

  /** `MatchedSettles` for a group that starts and ends with text. */
  lemma {:induction false} TextSettles(g: string, g': string, rest: string, y2: string)
    requires Collapsed(rest) && TextGroup(g) && DropsSpaces(g, g')
    requires DropsSpaces(ParenTrim(rest), y2)
    ensures ParenTrim("(" + g' + ")" + y2) == "(" + g' + ")" + y2
    decreases |rest|, 1
  {
    TextGroupDrops(g, g');
    ParenTrimSettles(rest, y2);
    ParenTrimKeeps(g', y2);
  }

  /** A group that is found again as it stands: no newline, text at both
      ends, and `)` at most at its start. */
  predicate TextGroup(g: string)
  {
    g != [] && !IsWs(g[0]) && !IsWs(g[|g| - 1]) && Avoids(g, ')', 1) && Avoids(g, '\n', 0)
  }

  lemma TextGroupDrops(g: string, g': string)
    requires TextGroup(g) && DropsSpaces(g, g')
    ensures TextGroup(g')
  {
    DropsSpacesHead(g, g');
    DropsSpacesLast(g, g');
    DropsKeepsAvoid(g, g', ')', 1);
    DropsKeepsAvoid(g, g', '\n', 0);
  }

  /** A parenthetical whose group is found again as it stands is copied. */
  lemma ParenTrimKeeps(g: string, rest: string)
    requires TextGroup(g)
    ensures ParenTrim("(" + g + ")" + rest) == "(" + g + ")" + ParenTrim(rest)
  {
    var s := "(" + g + ")" + rest;
    assert Shaped(s, 0, g, 0, rest) by {
      assert s[1..1 + |g|] == g && s[2 + |g|..] == rest;
    }
    ParenTrimShaped(s, 0, g, 0, rest);
  }

  /** Deleting spaces from `(g)t` leaves `(g')y2`, with `g'` what is left
      of `g` and `y2` what is left of `t`. */
  lemma MatchPieces(g: string, t: string, y: string) returns (g': string, y2: string)
    requires DropsSpaces("(" + g + ")" + t, y)
    ensures y == "(" + g' + ")" + y2 && DropsSpaces(g, g') && DropsSpaces(t, y2)
  {
    var a := "(" + g + ")" + t;
    DropsSpacesHead(a, y);
    assert a[1..] == g + (")" + t);
    var v;
    g', v := DropsSplit(g, ")" + t, y[1..]);
    DropsSpacesHead(")" + t, v);
    assert (")" + t)[1..] == t;
    y2 := v[1..];
    assert v == ")" + y2;
    assert y == [y[0]] + y[1..];
  }

  lemma DropsOneSpace(g: string)
    requires DropsSpaces(" ", g)
    ensures g == " " || g == []
  {
    assert " "[1..] == [];
  }

  /** `()` followed by text without `)`. */
  lemma SpaceDropped(y2: string)
    requires Avoids(y2, ')', 0)
    ensures ParenTrim("(" + [] + ")" + y2) == "(" + [] + ")" + y2
  {
    NoCloseFixed(y2);
    Unmatched(")" + y2);
    assert (")" + y2)[1..] == y2;
    assert "(" + [] + ")" + y2 == "(" + (")" + y2);
  }

  /** No space in front of a full stop. */
  predicate NoSpaceDot(s: string)
  {
    forall j :: 0 <= j < |s| - 1 ==> !(s[j] == ' ' && s[j + 1] == '.')
  }

  /** On collapsed text the substitution leaves no space in front of a full
      stop. */
  lemma {:induction false} SpaceDotLeaves(s: string)
    requires Collapsed(s)
    ensures NoSpaceDot(SpaceDot(s))
    decreases |s|
  {
    if s != [] {
      var out := SpaceDot(s);
      if |s| >= 2 && s[0] == ' ' && s[1] == '.' {
        var t := SpaceDot(s[2..]);
        CollapsedSuffix(s, 2);
        SpaceDotLeaves(s[2..]);
        forall j | 0 <= j < |out| - 1 ensures !(out[j] == ' ' && out[j + 1] == '.') {
          if j > 0 { assert out[j] == t[j - 1] && out[j + 1] == t[j]; }
        }
      } else {
        var t := SpaceDot(s[1..]);
        CollapsedSuffix(s, 1);
        SpaceDotLeaves(s[1..]);
        if |s| >= 2 && s[0] == ' ' {
          CollapsedCons(s);
          SpaceDotHead(s[1..]);
        }
        forall j | 0 <= j < |out| - 1 ensures !(out[j] == ' ' && out[j + 1] == '.') {
          if j > 0 { assert out[j] == t[j - 1] && out[j + 1] == t[j]; }
        }
      }
    }
  }

  /** The substitution starts its output with the input's first character,
      unless that is a space in front of a full stop. */
  lemma SpaceDotHead(s: string)
    requires s != [] && s[0] != ' '
    ensures SpaceDot(s) != [] && SpaceDot(s)[0] == s[0]
  {
  }

  lemma {:induction false} NoSpaceDotFixed(s: string)
    requires NoSpaceDot(s)
    ensures SpaceDot(s) == s
    decreases |s|
  {
    if s != [] {
      assert NoSpaceDot(s[1..]) by {
        forall j | 0 <= j < |s| - 2 ensures !(s[1..][j] == ' ' && s[1..][j + 1] == '.') {
          assert s[1..][j] == s[j + 1] && s[1..][j + 1] == s[j + 2];
        }
      }
      NoSpaceDotFixed(s[1..]);
      assert s == [s[0]] + s[1..];
    }
  }

  /** Deleting spaces from collapsed text cannot bring a space up against a
      full stop. */
  lemma {:induction false} DropsKeepsNoSpaceDot(a: string, b: string)
    requires Collapsed(a) && NoSpaceDot(a) && DropsSpaces(a, b)
    ensures NoSpaceDot(b)
    decreases |a|
  {
    if a != [] {
      CollapsedSuffix(a, 1);
      assert NoSpaceDot(a[1..]) by {
        forall j | 0 <= j < |a| - 2 ensures !(a[1..][j] == ' ' && a[1..][j + 1] == '.') {
          assert a[1..][j] == a[j + 1] && a[1..][j + 1] == a[j + 2];
        }
      }
      if b != [] && a[0] == b[0] && DropsSpaces(a[1..], b[1..]) {
        DropsKeepsNoSpaceDot(a[1..], b[1..]);
        if |b| >= 2 && b[0] == ' ' {
          CollapsedCons(a);
          DropsFirst(a[1..], b[1..]);
        }
        forall j | 0 <= j < |b| - 1 ensures !(b[j] == ' ' && b[j + 1] == '.') {
          if j > 0 { assert b[j] == b[1..][j - 1] && b[j + 1] == b[1..][j]; }
        }
      } else {
        DropsKeepsNoSpaceDot(a[1..], b);
      }
    }
  }

  /** The first character left after deleting spaces was the first one, or
      the first one was a space. */
  lemma DropsFirst(a: string, b: string)
    requires DropsSpaces(a, b) && b != []
    ensures a != [] && (a[0] == b[0] || a[0] == ' ')
  {
  }

  /** Text without the split `Д оповідач` is left alone. */
  lemma {:induction false} NoArtifactFixed(s: string)
    requires NoDoklArtifact(s)
    ensures DoklFix(s) == s
    decreases |s|
  {
    if s != [] {
      assert DoklHere(s[0..]).None?;
      assert s[0..] == s;
      assert NoDoklArtifact(s[1..]) by {
        forall i | 0 <= i < |s| - 1 ensures DoklHere(s[1..][i..]).None? {
          assert s[1..][i..] == s[i + 1..];
        }
      }
      NoArtifactFixed(s[1..]);
      assert s == [s[0]] + s[1..];
    }
  }
}
