/** The markup passes against the patterns they search for, and what they leave alone. */
module MarkupRules {
  import opened Strings
  import opened Markdown
  import opened Spans
  import opened Restore

  // ----- leftmost

  lemma {:induction false} NextIs(s: string, c: char, p: nat)
    requires p <= |s|
    ensures forall j :: p <= j < NextAt(s, c, p) ==> s[j] != c
    decreases |s| - p
  {
    if p < |s| && s[p] != c {
      NextIs(s, c, p + 1);
    }
  }

  lemma {:induction false} NextIsAt(s: string, c: char, p: nat, q: nat)
    requires p <= q < |s| && s[q] == c && forall j :: p <= j < q ==> s[j] != c
    ensures NextAt(s, c, p) == q
  {
    NextIs(s, c, p);
  }

  lemma {:induction false} FirstIs(s: string, at: (string, nat) -> bool, p: nat)
    requires p <= |s|
    ensures forall j :: p <= j < First(s, at, p) ==> !at(s, j)
    decreases |s| - p
  {
    if p < |s| && !at(s, p) {
      FirstIs(s, at, p + 1);
    }
  }

  // ----- emphasis

  ghost predicate StarFree(s: string, i: nat, j: nat) {
    forall k :: i <= k < j && k < |s| ==> s[k] != '*'
  }

  /** A star, a character that is no blank, tab or star, no further star, and a star at q. */
  ghost predicate EmMatch(s: string, p: nat, q: nat) {
    && p + 2 <= q < |s| && s[p] == '*' && s[q] == '*'
    && s[p + 1] != ' ' && s[p + 1] != '\t' && s[p + 1] != '*' && StarFree(s, p + 2, q)
  }

  lemma {:induction false} EmAtMatches(s: string, p: nat)
    ensures EmAt(s, p) ==> EmMatch(s, p, NextAt(s, '*', p + 2))
    ensures forall q :: EmMatch(s, p, q) ==> EmAt(s, p) && q == NextAt(s, '*', p + 2)
  {
    if p + 2 <= |s| {
      NextIs(s, '*', p + 2);
    }
    forall q | EmMatch(s, p, q)
      ensures EmAt(s, p) && q == NextAt(s, '*', p + 2)
    {
      NextIsAt(s, '*', p + 2, q);
    }
  }

  ghost predicate NoEmBefore(s: string, p: nat) {
    forall i: nat, j: nat :: i < p ==> !EmMatch(s, i, j)
  }

  /** The leftmost match is replaced, between unchanged text, and the search starts over. */
  lemma {:induction false} EmReplaces(s: string, p: nat, q: nat)
    requires EmMatch(s, p, q) && NoEmBefore(s, p)
    ensures Em(s) == Em(s[..p] + ("<em>" + (s[p + 1..q] + ("</em>" + s[q + 1..]))))
  {
    EmFirst(s, p, q);
    EmUnfolds(s, p);
    EmStepIs(s, p, q);
  }

  lemma {:induction false} EmUnfolds(s: string, p: nat)
    requires EmAt(s, p) && First(s, EmAt, 0) == p
    ensures Em(s) == Em(EmStep(s, p))
  {
    EmDrops(s, p);
  }

  lemma {:induction false} EmStepIs(s: string, p: nat, q: nat)
    requires EmAt(s, p) && q == NextAt(s, '*', p + 2)
    ensures EmStep(s, p) == s[..p] + ("<em>" + (s[p + 1..q] + ("</em>" + s[q + 1..])))
  {
  }

  lemma {:induction false} EmFirst(s: string, p: nat, q: nat)
    requires EmMatch(s, p, q) && NoEmBefore(s, p)
    ensures First(s, EmAt, 0) == p && EmAt(s, p) && q == NextAt(s, '*', p + 2)
  {
    var f := First(s, EmAt, 0);
    FirstIs(s, EmAt, 0);
    EmAtMatches(s, p);
    EmAtMatches(s, f);
  }

  /** Without a match the text is left as it is. */
  lemma {:induction false} EmLeaves(s: string)
    requires NoEmBefore(s, |s|)
    ensures Em(s) == s
  {
    EmAtMatches(s, First(s, EmAt, 0));
  }

  /** And only then. */
  lemma {:induction false} EmLeavesIff(s: string)
    ensures Em(s) == s <==> NoEmBefore(s, |s|)
  {
    if NoEmBefore(s, |s|) {
      EmLeaves(s);
    } else {
      var p: nat, q: nat :| p < |s| && EmMatch(s, p, q);
      EmAtMatches(s, p);
      FirstIs(s, EmAt, 0);
      EmStarsDrop(s);
    }
  }

  lemma {:induction false} EmStarsDrop(s: string)
    ensures Stars(Em(s)) <= Stars(s)
    ensures First(s, EmAt, 0) < |s| ==> Stars(Em(s)) < Stars(s)
    decreases Stars(s)
  {
    var p := First(s, EmAt, 0);
    if p < |s| {
      EmDrops(s, p);
      EmStarsDrop(EmStep(s, p));
    }
  }

  /** A text with two stars. Only the opening one is refused before a blank or a tab: the closing
      one may stand after a blank, and the text between the two may end in one. */
  lemma {:induction false} OnePairOfStars(a: string, x: string, b: string)
    requires '*' !in a && '*' !in x && '*' !in b && x != ""
    ensures Em(a + ("*" + (x + ("*" + b))))
         == if x[0] == ' ' || x[0] == '\t' then a + ("*" + (x + ("*" + b)))
            else a + ("<em>" + (x + ("</em>" + b)))
  {
    var s := a + ("*" + (x + ("*" + b)));
    TwoStars(a, x, b, s);
    if x[0] == ' ' || x[0] == '\t' {
      EmLeaves(s);
    } else {
      PairMatches(a, x, s);
      PairReplaced(a, x, b, s, |a|, |a| + 1 + |x|);
      EmTags(a, x, b);
    }
  }

  lemma PairMatches(a: string, x: string, s: string)
    requires |a| + |x| + 2 <= |s| && x != "" && x[0] != ' ' && x[0] != '\t' && s[|a| + 1] == x[0]
    requires forall i :: 0 <= i < |s| ==> (s[i] == '*' <==> i == |a| || i == |a| + 1 + |x|)
    ensures EmMatch(s, |a|, |a| + 1 + |x|) && NoEmBefore(s, |a|)
  {
  }

  lemma {:induction false} PairReplaced(a: string, x: string, b: string, s: string, p: nat, q: nat)
    requires EmMatch(s, p, q) && NoEmBefore(s, p)
    requires a == s[..p] && x == s[p + 1..q] && b == s[q + 1..]
    ensures Em(s) == Em(a + ("<em>" + (x + ("</em>" + b))))
  {
    EmReplaces(s, p, q);
  }

  lemma EmTags(a: string, x: string, b: string)
    requires '*' !in a && '*' !in x && '*' !in b
    ensures var t := a + ("<em>" + (x + ("</em>" + b))); Em(t) == t
  {
    var t := a + ("<em>" + (x + ("</em>" + b)));
    TagsStarFree(a, x, b);
    StarlessStays(t);
  }

  lemma {:induction false} StarlessStays(s: string)
    requires '*' !in s
    ensures Em(s) == s
  {
    EmLeaves(s);
  }

  lemma TwoStars(a: string, x: string, b: string, s: string)
    requires '*' !in a && '*' !in x && '*' !in b && x != "" && s == a + ("*" + (x + ("*" + b)))
    ensures |a| + |x| + 2 + |b| == |s| && s[|a| + 1] == x[0]
    ensures forall i :: 0 <= i < |s| ==> (s[i] == '*' <==> i == |a| || i == |a| + 1 + |x|)
    ensures s[..|a|] == a && s[|a| + 1..|a| + 1 + |x|] == x && s[|a| + 2 + |x|..] == b
  {
  }

  lemma TagsStarFree(a: string, x: string, b: string)
    requires '*' !in a && '*' !in x && '*' !in b
    ensures '*' !in a + ("<em>" + (x + ("</em>" + b)))
  {
    assert '*' !in "<em>" && '*' !in "</em>";
  }

  /** A star before a blank, a tab, a star or the end opens nothing: it is content. */
  lemma {:induction false} LooseStarsAreContent(s: string)
    requires forall i :: 0 <= i < |s| - 1 && s[i] == '*' ==> s[i + 1] == ' ' || s[i + 1] == '\t' || s[i + 1] == '*'
    ensures NoEmBefore(s, |s|) && Em(s) == s
  {
    EmLeaves(s);
  }

  // ----- bold

  /** Two stars, text without a star that is not empty, and two stars at q. */
  ghost predicate BoldMatch(s: string, p: nat, q: nat) {
    && p + 2 < q && q + 1 < |s| && s[p] == '*' && s[p + 1] == '*' && s[q] == '*' && s[q + 1] == '*'
    && StarFree(s, p + 2, q)
  }

  lemma {:induction false} BoldAtMatches(s: string, p: nat)
    ensures BoldAt(s, p) ==> BoldMatch(s, p, NextAt(s, '*', p + 2))
    ensures forall q :: BoldMatch(s, p, q) ==> BoldAt(s, p) && q == NextAt(s, '*', p + 2)
  {
    if p + 2 <= |s| {
      NextIs(s, '*', p + 2);
    }
    forall q | BoldMatch(s, p, q)
      ensures BoldAt(s, p) && q == NextAt(s, '*', p + 2)
    {
      NextIsAt(s, '*', p + 2, q);
    }
  }

  ghost predicate NoBoldBefore(s: string, p: nat) {
    forall i: nat, j: nat :: i < p ==> !BoldMatch(s, i, j)
  }

  lemma {:induction false} BoldReplaces(s: string, p: nat, q: nat)
    requires BoldMatch(s, p, q) && NoBoldBefore(s, p)
    ensures Bold(s) == Bold(s[..p] + ("<strong>" + (s[p + 2..q] + ("</strong>" + s[q + 2..]))))
  {
    BoldFirst(s, p, q);
    BoldUnfolds(s, p);
    BoldStepIs(s, p, q);
  }

  lemma {:induction false} BoldUnfolds(s: string, p: nat)
    requires BoldAt(s, p) && First(s, BoldAt, 0) == p
    ensures Bold(s) == Bold(BoldStep(s, p))
  {
    BoldDrops(s, p);
  }

  lemma {:induction false} BoldStepIs(s: string, p: nat, q: nat)
    requires BoldAt(s, p) && q == NextAt(s, '*', p + 2)
    ensures BoldStep(s, p) == s[..p] + ("<strong>" + (s[p + 2..q] + ("</strong>" + s[q + 2..])))
  {
  }

  lemma {:induction false} BoldFirst(s: string, p: nat, q: nat)
    requires BoldMatch(s, p, q) && NoBoldBefore(s, p)
    ensures First(s, BoldAt, 0) == p && BoldAt(s, p) && q == NextAt(s, '*', p + 2)
  {
    var f := First(s, BoldAt, 0);
    FirstIs(s, BoldAt, 0);
    BoldAtMatches(s, p);
    BoldAtMatches(s, f);
  }

  /** Without a match emphasis gets the text as it is. */
  lemma {:induction false} BoldLeaves(s: string)
    requires NoBoldBefore(s, |s|)
    ensures Bold(s) == Em(s)
  {
    BoldAtMatches(s, First(s, BoldAt, 0));
  }

  // ----- links

  /** "[", text without "]", "](", target without ")", ")" at r. */
  ghost predicate LinkMatch(s: string, p: nat, q: nat, r: nat) {
    && p < q && q + 2 <= r < |s| && s[p] == '[' && s[q] == ']' && s[q + 1] == '(' && s[r] == ')'
    && (forall j :: p < j < q ==> s[j] != ']') && (forall j :: q + 2 <= j < r ==> s[j] != ')')
  }

  lemma {:induction false} LinkAtMatches(s: string, p: nat)
    ensures LinkAt(s, p) ==>
              var q := NextAt(s, ']', p + 1);
              LinkMatch(s, p, q, NextAt(s, ')', q + 2))
    ensures forall q: nat, r: nat :: LinkMatch(s, p, q, r) ==>
              LinkAt(s, p) && q == NextAt(s, ']', p + 1) && r == NextAt(s, ')', q + 2)
  {
    if LinkAt(s, p) {
      var q := NextAt(s, ']', p + 1);
      NextIs(s, ']', p + 1);
      NextIs(s, ')', q + 2);
    }
    forall q: nat, r: nat | LinkMatch(s, p, q, r)
      ensures LinkAt(s, p) && q == NextAt(s, ']', p + 1) && r == NextAt(s, ')', q + 2)
    {
      NextIsAt(s, ']', p + 1, q);
      NextIsAt(s, ')', q + 2, r);
    }
  }

  ghost predicate NoLinkBefore(s: string, p: nat) {
    forall i: nat, j: nat, k: nat :: i < p ==> !LinkMatch(s, i, j, k)
  }

  /** The leftmost link: bold runs over the text before it and over its own text, the target
      becomes the reference, and the rest is a text of its own. */
  lemma {:induction false} MarkupReplaces(s: string, p: nat, q: nat, r: nat)
    requires LinkMatch(s, p, q, r) && NoLinkBefore(s, p)
    ensures Markup(s) == Bold(s[..p])
                         + (("<a href=\"" + (Href(s[q + 2..r]) + ("\">" + (Bold(s[p + 1..q]) + "</a>"))))
                            + Markup(s[r + 1..]))
  {
    LinkFirst(s, p, q, r);
    MarkupUnfolds(s, p);
    AnchorIs(s, p, q, r);
  }

  lemma {:induction false} MarkupUnfolds(s: string, p: nat)
    requires LinkAt(s, p) && First(s, LinkAt, 0) == p
    ensures Markup(s) == Bold(s[..p]) + (Anchor(s, p) + Markup(AfterLink(s, p)))
  {
  }

  lemma AnchorIs(s: string, p: nat, q: nat, r: nat)
    requires LinkAt(s, p) && p < q && q + 2 <= r < |s|
    requires q == NextAt(s, ']', p + 1) && r == NextAt(s, ')', q + 2)
    ensures Anchor(s, p) == "<a href=\"" + (Href(s[q + 2..r]) + ("\">" + (Bold(s[p + 1..q]) + "</a>")))
    ensures AfterLink(s, p) == s[r + 1..]
  {
    LinkParts(s, p, q, r);
    RowIs("<a href=\"", Href(s[q + 2..r]), "\">", Bold(s[p + 1..q]), "</a>");
  }

  lemma LinkParts(s: string, p: nat, q: nat, r: nat)
    requires LinkAt(s, p) && p < q && q + 2 <= r < |s|
    requires q == NextAt(s, ']', p + 1) && r == NextAt(s, ')', q + 2)
    ensures LinkText(s, p) == s[p + 1..q] && LinkTarget(s, p) == s[q + 2..r] && AfterLink(s, p) == s[r + 1..]
  {
  }

  lemma RowIs(a: string, x: string, m: string, y: string, b: string)
    ensures Row(a, x, m, y, b) == a + (x + (m + (y + b)))
  {
  }

  lemma {:induction false} LinkFirst(s: string, p: nat, q: nat, r: nat)
    requires LinkMatch(s, p, q, r) && NoLinkBefore(s, p)
    ensures First(s, LinkAt, 0) == p && LinkAt(s, p)
    ensures q == NextAt(s, ']', p + 1) && r == NextAt(s, ')', q + 2)
  {
    var f := First(s, LinkAt, 0);
    FirstIs(s, LinkAt, 0);
    LinkAtMatches(s, p);
    LinkAtMatches(s, f);
  }

  lemma {:induction false} MarkupLeaves(s: string)
    requires NoLinkBefore(s, |s|)
    ensures Markup(s) == Bold(s)
  {
    NoLink(s);
  }

  lemma {:induction false} NoLink(s: string)
    requires NoLinkBefore(s, |s|)
    ensures First(s, LinkAt, 0) == |s|
  {
    LinkAtMatches(s, First(s, LinkAt, 0));
  }

  // ----- link targets

  /** A scheme, an anchor on the same page and a host are left alone. */
  lemma HrefAbsolute(scheme: string, rest: string)
    requires scheme != "" && forall c :: c in scheme ==> 'a' <= c <= 'z'
    ensures Href(scheme + (":" + rest)) == scheme + (":" + rest)
    ensures Href("#" + rest) == "#" + rest && Href("//" + rest) == "//" + rest
  {
    SchemeLetters(scheme, rest);
  }

  lemma {:induction false} SchemeLetters(scheme: string, rest: string)
    requires forall c :: c in scheme ==> 'a' <= c <= 'z'
    ensures Letters(scheme + (":" + rest)) == |scheme|
  {
    var t := scheme + (":" + rest);
    if scheme == "" {
      assert t[0] == ':';
    } else {
      assert t[0] == scheme[0] && scheme[0] in scheme && t[1..] == scheme[1..] + (":" + rest);
      assert forall c :: c in scheme[1..] ==> c in scheme;
      SchemeLetters(scheme[1..], rest);
    }
  }

  /** Not a scheme, not an anchor, not a host: what the link says about the repository. */
  ghost predicate Relative(t: string) {
    && (forall n :: 0 < n < |t| && t[n] == ':' ==> exists i :: 0 <= i < n && !('a' <= t[i] <= 'z'))
    && !("#" <= t) && !("//" <= t)
  }

  lemma {:induction false} LettersAre(t: string)
    ensures forall i :: 0 <= i < Letters(t) ==> 'a' <= t[i] <= 'z'
  {
    if t != "" && 'a' <= t[0] <= 'z' {
      LettersAre(t[1..]);
      assert forall i :: 0 < i < |t| ==> t[i] == t[1..][i - 1];
    }
  }

  /** A path up leaves the pages for the repository, a page becomes its rendering, anything else
      stays; the anchor stays in every case. */
  lemma HrefRelative(page: string, anchor: string)
    requires '#' !in page && (anchor == "" || anchor[0] == '#') && Relative(page + anchor)
    ensures Href(page + anchor)
         == (if "../" <= page
             then "https://github.com/" + ("Allan-Nava/" + ("galera-doctor/" + "blob/main/")) + page[3..]
             else if |page| >= 3 && page[|page| - 3..] == ".md" then page[..|page| - 3] + ".html"
             else page) + anchor
  {
    var t := page + anchor;
    LettersAre(t);
    assert !Absolute(t);
    AnchorAt(page, anchor);
    HrefCuts(t, |page|);
    assert t[..|page|] == page && t[|page|..] == anchor;
  }

  lemma {:induction false} HrefCuts(t: string, h: nat)
    requires !Absolute(t) && !("#" <= t) && !("//" <= t) && h == NextAt(t, '#', 0)
    ensures Href(t) == Page(t[..h]) + t[h..]
  {
  }

  lemma {:induction false} AnchorAt(page: string, anchor: string)
    requires '#' !in page && (anchor == "" || anchor[0] == '#')
    ensures NextAt(page + anchor, '#', 0) == |page|
  {
    var t := page + anchor;
    NextIs(t, '#', 0);
    assert forall i :: 0 <= i < |page| ==> t[i] == page[i];
    assert anchor != "" ==> t[|page|] == '#';
  }

  // ----- the whole pass

  lemma {:induction false} OnePiece(s: string)
    requires '`' !in s
    ensures Pieces(s) == [s]
  {
    if s != "" {
      OnePiece(s[1..]);
      assert s == [s[0]] + s[1..];
    }
  }

  /** A line with no backtick and nothing a pattern matches is left exactly as it is. */
  lemma PlainLinesStay(s: string)
    requires '`' !in s && NoLinkBefore(s, |s|) && NoBoldBefore(s, |s|) && NoEmBefore(s, |s|)
    ensures Inline(s) == s
  {
    MarkupLeaves(s);
    BoldLeaves(s);
    EmLeaves(s);
    NoCode(s);
  }

  lemma {:induction false} NoCode(s: string)
    requires '`' !in s
    ensures Inline(s) == Markup(s)
  {
    if s == "" {
      assert HeldOut([]) == "" && CodesOf([]) == [];
    } else {
      OnePiece(s);
      OneHeld(s);
    }
  }

  lemma OneHeld(s: string)
    ensures HeldOut([s]) == s && CodesOf([s]) == []
  {
    HoldSnoc([], s);
    assert [] + [s] == [s] && HeldOut([]) == "" && "" + s == s;
  }

  /** So "3 * 4 * 5" stays what it is. */
  lemma LooseStarsStay(s: string)
    requires '`' !in s && '[' !in s
    requires forall i :: 0 <= i < |s| && s[i] == '*' ==> i + 1 == |s| || s[i + 1] == ' ' || s[i + 1] == '\t'
    ensures Inline(s) == s
  {
    LooseStarsAreContent(s);
    PlainLinesStay(s);
  }

  // ----- holding out

  function Backtick(): string {
    "`"
  }

  /** The parts are what stands between the backticks, all of it. */
  lemma {:induction false} PiecesJoin(s: string)
    ensures Join(Pieces(s), Backtick()) == s && forall p :: p in Pieces(s) ==> '`' !in p
  {
    var r := Pieces(s);
    if s != "" {
      PiecesJoin(s[1..]);
      var rest := Pieces(s[1..]);
      assert s == [s[0]] + s[1..];
      if s[0] == '`' {
        assert r[1..] == rest;
      } else {
        assert r[1..] == rest[1..];
      }
    }
  }

  /** The text with every second part as a code span. */
  function Shown(parts: seq<string>): string {
    if parts == [] then ""
    else Shown(parts[..|parts| - 1])
         + if |parts| % 2 == 0 then "<code>" + parts[|parts| - 1] + "</code>" else parts[|parts| - 1]
  }

  /** Held out and filled in again, without a markup pass between: every second part is code. */
  lemma {:induction false} HeldOutFilled(parts: seq<string>, codes: seq<string>)
    requires MarkFree(parts) && CodesOf(parts) <= codes
    ensures Filled(Out, HeldOut(parts), codes) == Shown(parts)
  {
    if parts != [] {
      var init, last := parts[..|parts| - 1], parts[|parts| - 1];
      assert CodesOf(init) <= CodesOf(parts);
      HeldOutFilled(init, codes);
      HeldOutLabels(init);
      FilledAppend(Out, HeldOut(init), Held(|parts|, last), codes);
      if |parts| % 2 == 0 {
        HeldFilled(last, codes, |parts| / 2);
      } else {
        FreeIsNeat(last);
      }
    }
  }

  lemma {:induction false} CodesAre(parts: seq<string>, k: nat)
    requires 2 * k + 1 < |parts|
    ensures CodesOf(parts)[k] == parts[2 * k + 1]
  {
    if 2 * k + 2 < |parts| {
      CodesAre(parts[..|parts| - 1], k);
    }
  }

  /** A line in which no pattern matches outside the code spans: only those are rendered. */
  lemma CodeLinesShown(s: string)
    requires MARK !in s
    requires var h := HeldOut(Split(s)); NoLinkBefore(h, |h|) && NoBoldBefore(h, |h|) && NoEmBefore(h, |h|)
    ensures Inline(s) == Shown(Split(s))
  {
    var h := HeldOut(Split(s));
    NoLink(h);
    MarkupLeaves(h);
    BoldLeaves(h);
    EmLeaves(h);
    SpansInOrderIff(s);
    if s != "" {
      PiecesFree(s);
    }
    HeldOutFilled(Split(s), CodesOf(Split(s)));
  }

  lemma {:induction false} HeldFilled(code: string, codes: seq<string>, k: nat)
    requires 1 <= k <= |codes| && codes[k - 1] == code
    ensures Filled(Out, Placeholder(k), codes) == "<code>" + code + "</code>"
  {
    var d := Decimal(k);
    NumberOfDecimal(k);
    PlaceholderFills(d, codes);
  }

  lemma {:induction false} PlaceholderFills(d: string, codes: seq<string>)
    requires forall c :: c in d ==> IsDigit(c)
    ensures Filled(Out, [MARK] + d + [MARK], codes) == CodeFor(codes, d)
  {
    var q := [MARK] + d + [MARK];
    assert q[0] == MARK && q[1..] == d + [MARK];
    DigitsInside("", d);
    assert "" + d == d && [MARK][1..] == "";
    NothingFilled("", d, codes);
    FilledAppend(In(""), d, [MARK], codes);
  }

  lemma {:induction false} NothingFilled(tag: string, d: string, codes: seq<string>)
    requires forall c :: c in d ==> IsDigit(c)
    ensures Filled(In(tag), d, codes) == ""
    decreases |d|
  {
    if d != "" {
      assert d[0] in d && forall c :: c in d[1..] ==> c in d;
      NothingFilled(tag + [d[0]], d[1..], codes);
    }
  }
}
