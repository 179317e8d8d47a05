/** Placeholders in the text the Markdown passes see: held out once each and in order, never read
    as markup, and kept by every pass. */
module Spans {
  import Sorting
  import opened Strings
  import opened Markdown

  // ----- reading placeholders: outside any, or inside one with its label so far

  datatype Lex = Out | In(tag: string)

  function Next(l: Lex, c: char): Lex {
    if c == MARK then (if l.In? then Out else In(""))
    else if l.In? then In(l.tag + [c]) else Out
  }

  function After(l: Lex, s: string): Lex
    decreases |s|
  {
    if s == "" then l else After(Next(l, s[0]), s[1..])
  }

  /** The labels of the placeholders that close in s. */
  function Emit(l: Lex, s: string): seq<string>
    decreases |s|
  {
    if s == "" then []
    else (if s[0] == MARK && l.In? then [l.tag] else []) + Emit(Next(l, s[0]), s[1..])
  }

  /** Inside a placeholder there are only digits. */
  predicate Tame(l: Lex, s: string)
    decreases |s|
  {
    s == "" || ((s[0] == MARK || l.Out? || IsDigit(s[0])) && Tame(Next(l, s[0]), s[1..]))
  }

  /** Every placeholder is closed and numeric. */
  predicate Neat(s: string) {
    Tame(Out, s) && After(Out, s) == Out
  }

  function Labels(s: string): seq<string> {
    Emit(Out, s)
  }

  /** s with every placeholder replaced by its code span, all at once. */
  function Filled(l: Lex, s: string, codes: seq<string>): string
    decreases |s|
  {
    if s == "" then ""
    else
      FilledAt(l, s[0], codes) + Filled(Next(l, s[0]), s[1..], codes)
  }

  function NumberOf(tag: string): int {
    if tag == "" then 0 else NumberOf(tag[..|tag| - 1]) * 10 + (tag[|tag| - 1] as int - '0' as int)
  }

  function Span(code: string): string {
    "<code>" + code + "</code>"
  }

  function CodeFor(codes: seq<string>, tag: string): string {
    var k := NumberOf(tag);
    if 1 <= k <= |codes| then Span(codes[k - 1]) else Placeholder(0)
  }

  lemma {:induction false} NumberOfDecimal(n: nat)
    ensures NumberOf(Decimal(n)) == n
  {
    var d := Decimal(n);
    if n < 10 {
      assert d[..0] == "";
    } else {
      NumberOfDecimal(n / 10);
      assert d[..|d| - 1] == Decimal(n / 10);
    }
  }

  lemma {:induction false} LexAppend(l: Lex, a: string, b: string)
    ensures After(l, a + b) == After(After(l, a), b)
    ensures Emit(l, a + b) == Emit(l, a) + Emit(After(l, a), b)
    ensures Tame(l, a + b) <==> Tame(l, a) && Tame(After(l, a), b)
    decreases |a|
  {
    if a == "" {
      assert a + b == b;
    } else {
      assert (a + b)[0] == a[0] && (a + b)[1..] == a[1..] + b;
      LexAppend(Next(l, a[0]), a[1..], b);
      var here := if a[0] == MARK && l.In? then [l.tag] else [];
      Sorting.Associate(here, Emit(Next(l, a[0]), a[1..]), Emit(After(l, a), b));
    }
  }

  function FilledAt(l: Lex, c: char, codes: seq<string>): string {
    if c == MARK then (if l.In? then CodeFor(codes, l.tag) else "") else if l.In? then "" else [c]
  }

  lemma {:induction false} FilledAppend(l: Lex, a: string, b: string, codes: seq<string>)
    ensures Filled(l, a + b, codes) == Filled(l, a, codes) + Filled(After(l, a), b, codes)
    decreases |a|
  {
    if a == "" {
      assert a + b == b;
    } else {
      assert (a + b)[0] == a[0] && (a + b)[1..] == a[1..] + b;
      FilledAppend(Next(l, a[0]), a[1..], b, codes);
      Sorting.Associate(FilledAt(l, a[0], codes), Filled(Next(l, a[0]), a[1..], codes), Filled(After(l, a), b, codes));
    }
  }

  lemma NeatAppend(a: string, b: string)
    requires Neat(a)
    ensures Neat(a + b) <==> Neat(b)
    ensures Labels(a + b) == Labels(a) + Labels(b)
  {
    LexAppend(Out, a, b);
  }

  /** A character that is neither mark nor digit is always outside: both sides are neat. */
  lemma NeatSplit(a: string, x: char, b: string)
    requires Neat(a + ([x] + b)) && x != MARK && !IsDigit(x)
    ensures Neat(a) && Neat([x]) && Neat(b) && Labels([x]) == []
    ensures Labels(a + ([x] + b)) == Labels(a) + Labels(b)
  {
    LexAppend(Out, a, [x] + b);
    LexAppend(After(Out, a), [x], b);
    assert ([x] + b)[1..] == b && [x][1..] == "";
    assert After(Out, a) == Out;
  }

  lemma {:induction false} FreeIsNeat(s: string)
    requires MARK !in s
    ensures Neat(s) && Labels(s) == []
    ensures forall codes :: Filled(Out, s, codes) == s
  {
    if s != "" {
      FreeIsNeat(s[1..]);
      assert s == [s[0]] + s[1..];
    }
  }

  // ----- holding out

  lemma {:induction false} DigitsInside(tag: string, d: string)
    requires forall c :: c in d ==> IsDigit(c)
    ensures After(In(tag), d) == In(tag + d) && Emit(In(tag), d) == [] && Tame(In(tag), d)
    decreases |d|
  {
    if d == "" {
      assert tag + d == tag;
    } else {
      assert d[0] in d;
      DigitsInside(tag + [d[0]], d[1..]);
      assert tag + [d[0]] + d[1..] == tag + d;
    }
  }

  lemma {:induction false} PlaceholderLabel(k: nat)
    ensures Neat(Placeholder(k)) && Labels(Placeholder(k)) == [Decimal(k)]
  {
    var d := Decimal(k);
    DigitsInside("", d);
    assert "" + d == d;
    LexAppend(Out, [MARK], d + [MARK]);
    LexAppend(In(""), d, [MARK]);
    assert [MARK] + (d + [MARK]) == Placeholder(k);
    assert [MARK][1..] == "";
  }

  /** "i", "i+1", ..., "n" */
  function Numerals(i: nat, n: nat): seq<string>
    decreases n + 1 - i
  {
    if i > n then [] else [Decimal(i)] + Numerals(i + 1, n)
  }

  lemma {:induction false} NumeralsSnoc(i: nat, n: nat)
    requires i <= n + 1
    ensures Numerals(i, n + 1) == Numerals(i, n) + [Decimal(n + 1)]
    decreases n + 1 - i
  {
    if i <= n {
      NumeralsSnoc(i + 1, n);
    } else {
      assert Numerals(i + 1, n + 1) == [];
    }
  }

  ghost predicate MarkFree(parts: seq<string>) {
    forall p :: p in parts ==> MARK !in p
  }

  lemma {:induction false} HeldOutLabels(parts: seq<string>)
    requires MarkFree(parts)
    ensures Neat(HeldOut(parts)) && Labels(HeldOut(parts)) == Numerals(1, |parts| / 2)
  {
    if parts != [] {
      var init, last := parts[..|parts| - 1], parts[|parts| - 1];
      var k := |parts| / 2;
      HeldOutLabels(init);
      assert |init| / 2 == if |parts| % 2 == 0 then k - 1 else k;
      if |parts| % 2 == 0 {
        HoldOne(HeldOut(init), k);
      } else {
        KeepOne(HeldOut(init), last);
      }
    }
  }

  lemma KeepOne(before: string, part: string)
    requires Neat(before) && MARK !in part
    ensures Neat(before + part) && Labels(before + part) == Labels(before)
  {
    FreeIsNeat(part);
    NeatAppend(before, part);
  }

  lemma HoldOne(before: string, k: nat)
    requires k > 0 && Neat(before) && Labels(before) == Numerals(1, k - 1)
    ensures Neat(before + Placeholder(k)) && Labels(before + Placeholder(k)) == Numerals(1, k)
  {
    PlaceholderLabel(k);
    NeatAppend(before, Placeholder(k));
    NumeralsSnoc(1, k - 1);
  }

  lemma {:induction false} PiecesFree(s: string)
    requires MARK !in s
    ensures MarkFree(Pieces(s))
  {
    if s != "" {
      PiecesFree(s[1..]);
      var r := Pieces(s[1..]);
      assert r[0] in r;
    }
  }

  lemma {:induction false} CodesFree(parts: seq<string>)
    requires MarkFree(parts)
    ensures MarkFree(CodesOf(parts))
  {
    if parts != [] {
      CodesFree(parts[..|parts| - 1]);
    }
  }

  lemma {:induction false} HeldOutSame(a: seq<string>, b: seq<string>)
    requires |a| == |b| && forall i :: 0 <= i < |a| ==> Held(i + 1, a[i]) == Held(i + 1, b[i])
    ensures HeldOut(a) == HeldOut(b)
  {
    if a != [] {
      HeldOutSame(a[..|a| - 1], b[..|b| - 1]);
    }
  }

  lemma HeldSamePart(i: nat, x: string, y: string)
    requires i % 2 == 0 ==> x == y
    ensures Held(i + 1, x) == Held(i + 1, y)
  {
  }

  /** Nothing inside a span is ever read as markup: the held-out text depends on the other
      parts alone. */
  lemma {:induction false} HeldOutIgnoresCode(a: seq<string>, b: seq<string>)
    requires |a| == |b| && forall i :: 0 <= i < |a| && i % 2 == 0 ==> a[i] == b[i]
    ensures HeldOut(a) == HeldOut(b)
  {
    forall i | 0 <= i < |a|
      ensures Held(i + 1, a[i]) == Held(i + 1, b[i])
    {
      HeldSamePart(i, a[i], b[i]);
    }
    HeldOutSame(a, b);
  }

  // ----- the passes keep the placeholders

  /** s and r have the same placeholders in the same order. */
  ghost predicate Keeps(s: string, r: string) {
    Neat(r) && Labels(r) == Labels(s)
  }

  lemma RowLabels(a: string, x: string, m: string, y: string, b: string)
    requires Neat(a) && Neat(x) && Neat(m) && Neat(y) && Neat(b)
    ensures Neat(Row(a, x, m, y, b))
    ensures Labels(Row(a, x, m, y, b)) == Labels(a) + (Labels(x) + (Labels(m) + (Labels(y) + Labels(b))))
  {
    NeatAppend(y, b);
    NeatAppend(m, y + b);
    NeatAppend(x, m + (y + b));
    NeatAppend(a, x + (m + (y + b)));
  }

  lemma TagsAreNeat()
    ensures Neat("<strong>") && Neat("</strong>") && Neat("<em>") && Neat("</em>")
    ensures Labels("<strong>") == [] && Labels("</strong>") == [] && Labels("<em>") == [] && Labels("</em>") == []
  {
    StrongIsNeat();
    FreeIsNeat("<em>");
    FreeIsNeat("</em>");
  }

  lemma StrongIsNeat()
    ensures Neat("<strong>") && Neat("</strong>") && Labels("<strong>") == [] && Labels("</strong>") == []
  {
    FreeIsNeat("<strong>");
    FreeIsNeat("</strong>");
  }

  lemma BoldStepKeeps(s: string, p: nat)
    requires Neat(s) && BoldAt(s, p)
    ensures Keeps(s, BoldStep(s, p))
  {
    var a, m, b := BoldShape(s, p);
    BoldRowKeeps(a, m, b);
  }

  lemma BoldRowKeeps(a: string, m: string, b: string)
    requires Neat(Row(a, "**", m, "**", b))
    ensures Keeps(Row(a, "**", m, "**", b), Row(a, "<strong>", m, "</strong>", b))
  {
    BoldRowLabels(a, m, b);
    TagsAreNeat();
    TaggedLabels(a, "<strong>", m, "</strong>", b);
  }

  lemma BoldRowLabels(a: string, m: string, b: string)
    requires Neat(Row(a, "**", m, "**", b))
    ensures Neat(a) && Neat(m) && Neat(b)
    ensures Labels(Row(a, "**", m, "**", b)) == Labels(a) + (Labels(m) + Labels(b))
  {
    DoubleStar(a, m + ("**" + b));
    DoubleStar(m, b);
  }

  /** Tags around m add no placeholder. */
  lemma TaggedLabels(a: string, x: string, m: string, y: string, b: string)
    requires Neat(a) && Neat(x) && Neat(m) && Neat(y) && Neat(b) && Labels(x) == Labels(y) == []
    ensures Neat(Row(a, x, m, y, b)) && Labels(Row(a, x, m, y, b)) == Labels(a) + (Labels(m) + Labels(b))
  {
    RowLabels(a, x, m, y, b);
    NothingBefore(Labels(b));
    NothingBefore(Labels(m) + Labels(b));
  }

  lemma NothingBefore(s: seq<string>)
    ensures [] + s == s
  {
  }

  lemma DoubleStar(a: string, b: string)
    requires Neat(a + ("**" + b))
    ensures Neat(a) && Neat(b) && Labels(a + ("**" + b)) == Labels(a) + Labels(b)
  {
    assert "**" + b == ['*'] + (['*'] + b);
    NeatSplit(a, '*', ['*'] + b);
    StarFirst(b);
  }

  lemma StarFirst(b: string)
    requires Neat(['*'] + b)
    ensures Neat(b) && Labels(['*'] + b) == Labels(b)
  {
    assert ['*'] + b == "" + (['*'] + b);
    NeatSplit("", '*', b);
  }

  lemma EmStepKeeps(s: string, p: nat)
    requires Neat(s) && EmAt(s, p)
    ensures Keeps(s, EmStep(s, p))
  {
    var a, m, b := EmShape(s, p);
    EmRowKeeps(a, m, b);
  }

  lemma EmRowKeeps(a: string, m: string, b: string)
    requires Neat(Row(a, "*", m, "*", b))
    ensures Keeps(Row(a, "*", m, "*", b), Row(a, "<em>", m, "</em>", b))
  {
    EmRowLabels(a, m, b);
    TagsAreNeat();
    TaggedLabels(a, "<em>", m, "</em>", b);
  }

  lemma EmRowLabels(a: string, m: string, b: string)
    requires Neat(Row(a, "*", m, "*", b))
    ensures Neat(a) && Neat(m) && Neat(b)
    ensures Labels(Row(a, "*", m, "*", b)) == Labels(a) + (Labels(m) + Labels(b))
  {
    SingleStar(a, m + ("*" + b));
    SingleStar(m, b);
  }

  lemma SingleStar(a: string, b: string)
    requires Neat(a + ("*" + b))
    ensures Neat(a) && Neat(b) && Labels(a + ("*" + b)) == Labels(a) + Labels(b)
  {
    NeatSplit(a, '*', b);
  }

  lemma {:induction false} EmKeeps(s: string)
    requires Neat(s)
    ensures Keeps(s, Em(s))
    decreases Stars(s)
  {
    var p := First(s, EmAt, 0);
    if p < |s| {
      EmDrops(s, p);
      EmStepKeeps(s, p);
      EmKeeps(EmStep(s, p));
    }
  }

  lemma {:induction false} BoldKeeps(s: string)
    requires Neat(s)
    ensures Keeps(s, Bold(s))
    decreases Stars(s)
  {
    var p := First(s, BoldAt, 0);
    if p < |s| {
      BoldDrops(s, p);
      BoldStepKeeps(s, p);
      BoldKeeps(BoldStep(s, p));
    } else {
      EmKeeps(s);
    }
  }

  lemma RepoFree()
    ensures MARK !in REPO
  {
    assert MARK !in "https://github.com/" && MARK !in "Allan-Nava/";
    assert MARK !in "galera-doctor/" && MARK !in "blob/main/";
  }

  lemma PageKeeps(t: string)
    requires Neat(t)
    ensures Keeps(t, Page(t))
  {
    if "../" <= t {
      var b := t[3..];
      assert t == "" + (['.'] + ("./" + b));
      NeatSplit("", '.', "./" + b);
      assert "./" + b == "" + (['.'] + ("/" + b));
      NeatSplit("", '.', "/" + b);
      assert "/" + b == "" + (['/'] + b);
      NeatSplit("", '/', b);
      RepoFree();
      FreeIsNeat(REPO);
      NeatAppend(REPO, b);
    } else if |t| >= 3 && t[|t| - 3..] == ".md" {
      var a := t[..|t| - 3];
      assert t == a + (['.'] + "md");
      NeatSplit(a, '.', "md");
      FreeIsNeat("md");
      FreeIsNeat(".html");
      NeatAppend(a, ".html");
    }
  }

  lemma HrefKeeps(t: string)
    requires Neat(t)
    ensures Keeps(t, Href(t))
  {
    if !(Absolute(t) || "#" <= t || "//" <= t) {
      var h := NextAt(t, '#', 0);
      var a, b := t[..h], t[h..];
      assert t == a + b;
      if h < |t| {
        assert b == ['#'] + t[h + 1..];
        NeatSplit(a, '#', t[h + 1..]);
      } else {
        assert a == t && b == "";
      }
      NeatAppend(a, b);
      PageKeeps(a);
      NeatAppend(Page(a), b);
    }
  }

  lemma HeadOff(s: string, i: nat)
    requires i < |s|
    ensures s[i..] == [s[i]] + s[i + 1..]
  {
  }

  lemma CutAt(s: string, i: nat, j: nat)
    requires i <= j <= |s|
    ensures s[i..] == s[i..j] + s[j..]
  {
  }

  lemma SplitAt(s: string, p: nat, i: nat)
    requires p <= i < |s| && Neat(s[p..]) && s[i] != MARK && !IsDigit(s[i])
    ensures Neat(s[p..i]) && Neat(s[i + 1..]) && Labels(s[p..]) == Labels(s[p..i]) + Labels(s[i + 1..])
  {
    CutAt(s, p, i);
    HeadOff(s, i);
    NeatSplit(s[p..i], s[i], s[i + 1..]);
  }

  lemma SkipAt(s: string, i: nat)
    requires i < |s| && Neat(s[i..]) && s[i] != MARK && !IsDigit(s[i])
    ensures Neat(s[i + 1..]) && Labels(s[i..]) == Labels(s[i + 1..])
  {
    SplitAt(s, i, i);
    assert s[i..i] == "" && Labels("") == [];
  }

  /** The pieces of a string at its first link. */
  lemma LinkNeat(s: string, p: nat)
    requires Neat(s) && LinkAt(s, p)
    ensures Neat(s[..p]) && Neat(LinkText(s, p)) && Neat(LinkTarget(s, p)) && Neat(AfterLink(s, p))
    ensures Labels(s) == Labels(s[..p])
                         + (Labels(LinkText(s, p)) + (Labels(LinkTarget(s, p)) + Labels(AfterLink(s, p))))
  {
    var q := NextAt(s, ']', p + 1);
    assert s[0..] == s && s[0..p] == s[..p];
    SplitAt(s, 0, p);
    SplitAt(s, p + 1, q);
    TargetNeat(s, q, NextAt(s, ')', q + 2));
  }

  lemma TargetNeat(s: string, q: nat, r: nat)
    requires q + 2 <= r < |s| && s[q + 1] == '(' && s[r] == ')' && Neat(s[q + 1..])
    ensures Neat(s[q + 2..r]) && Neat(s[r + 1..]) && Labels(s[q + 1..]) == Labels(s[q + 2..r]) + Labels(s[r + 1..])
  {
    SkipAt(s, q + 1);
    SplitAt(s, q + 2, r);
  }

  lemma AnchorTagsAreNeat()
    ensures Neat("<a href=\"") && Neat("\">") && Neat("</a>")
    ensures Labels("<a href=\"") == [] && Labels("\">") == [] && Labels("</a>") == []
  {
    FreeIsNeat("<a href=\"");
    FreeIsNeat("\">");
    FreeIsNeat("</a>");
  }

  lemma AnchorLabels(s: string, p: nat)
    requires Neat(s) && LinkAt(s, p)
    ensures Neat(Anchor(s, p)) && Labels(Anchor(s, p)) == Labels(LinkTarget(s, p)) + Labels(LinkText(s, p))
  {
    LinkNeat(s, p);
    BoldKeeps(LinkText(s, p));
    HrefKeeps(LinkTarget(s, p));
    AnchorRow(Href(LinkTarget(s, p)), Bold(LinkText(s, p)));
  }

  lemma AnchorRow(target: string, text: string)
    requires Neat(target) && Neat(text)
    ensures Neat(Row("<a href=\"", target, "\">", text, "</a>"))
    ensures Labels(Row("<a href=\"", target, "\">", text, "</a>")) == Labels(target) + Labels(text)
  {
    AnchorTagsAreNeat();
    RowLabels("<a href=\"", target, "\">", text, "</a>");
  }

  lemma MarkupStep(s: string, p: nat)
    requires Neat(s) && LinkAt(s, p) && Neat(Markup(AfterLink(s, p)))
    ensures var r := Bold(s[..p]) + (Anchor(s, p) + Markup(AfterLink(s, p)));
            && Neat(r)
            && Labels(r) == Labels(s[..p])
                            + ((Labels(LinkTarget(s, p)) + Labels(LinkText(s, p))) + Labels(Markup(AfterLink(s, p))))
  {
    LinkNeat(s, p);
    BoldKeeps(s[..p]);
    AnchorLabels(s, p);
    NeatAppend(Anchor(s, p), Markup(AfterLink(s, p)));
    NeatAppend(Bold(s[..p]), Anchor(s, p) + Markup(AfterLink(s, p)));
  }

  /** In every link, not both the text and the target hold a code span: the target is printed
      first, so only then do two spans change places. */
  predicate LinksOrdered(s: string)
    decreases |s|
  {
    var p := First(s, LinkAt, 0);
    p == |s| || ((Labels(LinkText(s, p)) == [] || Labels(LinkTarget(s, p)) == []) && LinksOrdered(AfterLink(s, p)))
  }

  /** Markup loses, adds and duplicates no placeholder. */
  lemma {:induction false} MarkupKeepsEach(s: string)
    requires Neat(s)
    ensures Neat(Markup(s)) && multiset(Labels(Markup(s))) == multiset(Labels(s))
    decreases |s|
  {
    var p := First(s, LinkAt, 0);
    if p == |s| {
      BoldKeeps(s);
    } else {
      LinkNeat(s, p);
      MarkupKeepsEach(AfterLink(s, p));
      MarkupStep(s, p);
    }
  }

  ghost predicate AllDifferent(ls: seq<string>) {
    forall i, j :: 0 <= i < j < |ls| ==> ls[i] != ls[j]
  }

  /** Two blocks of different labels change places visibly unless one of them is empty. */
  lemma SwapIff(a: seq<string>, x: seq<string>, y: seq<string>, b: seq<string>, c: seq<string>)
    requires AllDifferent(a + (x + (y + b))) && |b| == |c|
    ensures a + ((y + x) + c) == a + (x + (y + b)) <==> (x == [] || y == []) && b == c
  {
    var s, t := a + (x + (y + b)), a + ((y + x) + c);
    if x != [] && y != [] {
      assert s[|a|] == x[0] && t[|a|] == y[0] && s[|a| + |x|] == y[0];
    } else {
      assert y + x == x + y;
      assert s == a + ((x + y) + b);
      var n := |a| + |x| + |y|;
      assert s[n..] == b && t[n..] == c;
    }
  }

  /** The placeholders come out in order exactly when no link swaps two of them. */
  lemma {:induction false} MarkupOrderIff(s: string)
    requires Neat(s) && AllDifferent(Labels(s))
    ensures Labels(Markup(s)) == Labels(s) <==> LinksOrdered(s)
    decreases |s|
  {
    var p := First(s, LinkAt, 0);
    if p == |s| {
      BoldKeeps(s);
    } else {
      LinkNeat(s, p);
      var rest := AfterLink(s, p);
      var a, x, y, b := Labels(s[..p]), Labels(LinkText(s, p)), Labels(LinkTarget(s, p)), Labels(rest);
      TailDifferent(a, x, y, b);
      MarkupOrderIff(rest);
      MarkupKeepsEach(rest);
      MarkupStep(s, p);
      var c := Labels(Markup(rest));
      assert |c| == |multiset(c)| && |b| == |multiset(b)|;
      SwapIff(a, x, y, b, c);
    }
  }

  lemma TailDifferent(a: seq<string>, x: seq<string>, y: seq<string>, b: seq<string>)
    requires AllDifferent(a + (x + (y + b)))
    ensures AllDifferent(b)
  {
    var s := a + (x + (y + b));
    var n := |a| + |x| + |y|;
    assert forall i :: 0 <= i < |b| ==> b[i] == s[n + i];
  }

  // ----- the numerals of a whole text

  lemma {:induction false} NumeralsDifferent(i: nat, n: nat)
    ensures AllDifferent(Numerals(i, n))
    ensures forall l :: l in Numerals(i, n) ==> Numeral(l, i)
    decreases n + 1 - i
  {
    if i <= n {
      NumeralsDifferent(i + 1, n);
      var later := Numerals(i + 1, n);
      forall l | l in later
        ensures l != Decimal(i) && Numeral(l, i)
      {
        var k: nat :| i + 1 <= k && Decimal(k) == l;
        if Decimal(k) == Decimal(i) {
          DecimalInjective(k, i);
        }
      }
      assert Decimal(i) == Decimal(i);
      assert Numeral(Decimal(i), i);
    }
  }

  ghost predicate Numeral(l: string, from: nat) {
    exists k: nat :: from <= k && Decimal(k) == l
  }

  /** Markup of the text with its spans held out, for an input without the mark. */
  lemma HeldOutFacts(s: string)
    requires MARK !in s
    ensures var h := HeldOut(Split(s));
            && Neat(h) && AllDifferent(Labels(h)) && Labels(h) == Numerals(1, |CodesOf(Split(s))|)
    ensures MarkFree(CodesOf(Split(s)))
  {
    if s != "" {
      PiecesFree(s);
    }
    HeldOutLabels(Split(s));
    CodesFree(Split(s));
    NumeralsDifferent(1, |Split(s)| / 2);
  }
}
