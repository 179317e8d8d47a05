/** Putting the code spans back: the loop looks each placeholder up by its text, so a number
    standing alone between two placeholders can be taken for one. This says exactly when. */
module Restore {
  import opened Strings
  import opened Markdown
  import opened Spans

  // ----- the loop body as a replacement of the first occurrence

  /** s with the first occurrence of t replaced by r. */
  function Replaced(s: string, t: string, r: string): string {
    if t <= s then r + s[|t|..] else if s == "" then "" else [s[0]] + Replaced(s[1..], t, r)
  }

  lemma {:induction false} ReplacedAtIndex(s: string, t: string, r: string)
    requires t != ""
    ensures var pos := Index(s, t);
            if pos == 0 then Replaced(s, t, r) == s
            else pos - 1 + |t| <= |s| && Replaced(s, t, r) == s[..pos - 1] + r + s[pos - 1 + |t|..]
  {
    if !(t <= s) && s != "" {
      ReplacedAtIndex(s[1..], t, r);
      var rest := Index(s[1..], t);
      if rest > 0 {
        OneFurther(s, rest - 1, rest - 1 + |t|, r);
      }
    }
  }

  lemma OneFurther(s: string, i: nat, j: nat, r: string)
    requires s != "" && i <= j <= |s[1..]|
    ensures [s[0]] + (s[1..][..i] + r + s[1..][j..]) == s[..i + 1] + r + s[j + 1..]
  {
  }

  lemma {:induction false} RestoreReplaces(s: string, codes: seq<string>, i: nat)
    requires 1 <= i <= |codes|
    ensures RestoreOne(s, codes, i) == Replaced(s, Placeholder(i), Span(codes[i - 1]))
  {
    IndexMeaning(s, Placeholder(i));
    ReplacedAtIndex(s, Placeholder(i), Span(codes[i - 1]));
  }

  lemma {:induction false} ReplacedAfter(a: string, s: string, t: string, r: string)
    requires MARK !in a && t != "" && t[0] == MARK
    ensures Replaced(a + s, t, r) == a + Replaced(s, t, r)
  {
    if a == "" {
      assert a + s == s;
    } else {
      assert (a + s)[0] == a[0] && (a + s)[1..] == a[1..] + s;
      ReplacedAfter(a[1..], s, t, r);
      assert [a[0]] + (a[1..] + Replaced(s, t, r)) == a + Replaced(s, t, r);
    }
  }

  // ----- a text as its placeholders, each with the text up to the next one

  datatype Cell = Cell(tag: string, gap: string)

  function Quote(tag: string): string {
    [MARK] + tag + [MARK]
  }

  function Body(cs: seq<Cell>): string {
    if cs == [] then "" else Quote(cs[0].tag) + (cs[0].gap + Body(cs[1..]))
  }

  /** The text with every span in its place. */
  function FilledBody(cs: seq<Cell>, codes: seq<string>): string {
    if cs == [] then "" else CodeFor(codes, cs[0].tag) + (cs[0].gap + FilledBody(cs[1..], codes))
  }

  function Tags(cs: seq<Cell>): (r: seq<string>)
    ensures |r| == |cs| && forall p :: 0 <= p < |cs| ==> r[p] == cs[p].tag
  {
    if cs == [] then [] else [cs[0].tag] + Tags(cs[1..])
  }

  ghost predicate Plain(cs: seq<Cell>) {
    forall c :: c in cs ==> MARK !in c.tag && MARK !in c.gap
  }

  /** The text before the first mark. */
  function Lead(s: string): string {
    if s == "" || s[0] == MARK then "" else [s[0]] + Lead(s[1..])
  }

  lemma {:induction false} LeadUpTo(t: string, rest: string)
    requires MARK !in t
    ensures Lead(t + ([MARK] + rest)) == t && Lead(t) == t
  {
    var s := t + ([MARK] + rest);
    if t != "" {
      assert s[0] == t[0] && s[1..] == t[1..] + ([MARK] + rest);
      LeadUpTo(t[1..], rest);
      assert t == [t[0]] + t[1..];
    }
  }

  function CellsOf(s: string): seq<Cell>
    decreases |s|
  {
    LeadShort(s);
    var opening := |Lead(s)|;
    if opening == |s| then []
    else
      var u := s[opening + 1..];
      LeadShort(u);
      var closing := |Lead(u)|;
      if closing == |u| then []
      else
        var rest := u[closing + 1..];
        [Cell(Lead(u), Lead(rest))] + CellsOf(rest)
  }

  lemma {:induction false} LeadShort(s: string)
    ensures |Lead(s)| <= |s|
  {
    if s != "" && s[0] != MARK {
      LeadShort(s[1..]);
    }
  }

  lemma SpellCell(t: string, tag: string, rest: string)
    ensures t + (Quote(tag) + rest) == t + ([MARK] + (tag + ([MARK] + rest)))
  {
  }

  lemma {:induction false} CellsAt(t: string, tag: string, rest: string)
    requires MARK !in t && MARK !in tag
    ensures Lead(t + (Quote(tag) + rest)) == t
    ensures CellsOf(t + (Quote(tag) + rest)) == [Cell(tag, Lead(rest))] + CellsOf(rest)
  {
    var u := tag + ([MARK] + rest);
    var s := t + ([MARK] + u);
    SpellCell(t, tag, rest);
    LeadUpTo(t, u);
    LeadUpTo(tag, rest);
    PastMark(t, u);
    PastMark(tag, rest);
  }

  lemma PastMark(t: string, u: string)
    ensures |t + ([MARK] + u)| > |t| && (t + ([MARK] + u))[|t| + 1..] == u
  {
  }

  /** Reading the cells of a spelled text gives them back. */
  lemma {:induction false} CellsOfBody(lead: string, cs: seq<Cell>)
    requires MARK !in lead && Plain(cs)
    ensures Lead(lead + Body(cs)) == lead && CellsOf(lead + Body(cs)) == cs
    decreases |cs|
  {
    if cs == [] {
      LeadUpTo(lead, "");
      assert lead + Body(cs) == lead;
    } else {
      assert cs[0] in cs;
      CellsOfBody(cs[0].gap, cs[1..]);
      CellsAt(lead, cs[0].tag, cs[0].gap + Body(cs[1..]));
      FirstCell(cs);
    }
  }

  lemma FirstCell(cs: seq<Cell>)
    requires cs != []
    ensures cs == [Cell(cs[0].tag, cs[0].gap)] + cs[1..]
  {
  }

  // ----- reading one placeholder

  lemma {:induction false} SplitMark(s: string) returns (d: string, rest: string)
    requires MARK in s
    ensures s == d + ([MARK] + rest) && MARK !in d
  {
    if s[0] == MARK {
      d, rest := "", s[1..];
    } else {
      var d1;
      d1, rest := SplitMark(s[1..]);
      d := [s[0]] + d1;
    }
  }

  lemma {:induction false} InsideRun(tag: string, d: string, codes: seq<string>)
    requires MARK !in d
    ensures After(In(tag), d) == In(tag + d) && Emit(In(tag), d) == [] && Filled(In(tag), d, codes) == ""
    decreases |d|
  {
    if d == "" {
      assert tag + d == tag;
    } else {
      InsideRun(tag + [d[0]], d[1..], codes);
      assert tag + [d[0]] + d[1..] == tag + d;
    }
  }

  /** What a placeholder contributes. */
  lemma {:induction false} QuoteLex(tag: string, codes: seq<string>)
    requires MARK !in tag
    ensures After(Out, Quote(tag)) == Out && Emit(Out, Quote(tag)) == [tag]
    ensures Filled(Out, Quote(tag), codes) == CodeFor(codes, tag)
  {
    TagLex(tag, codes);
    assert Quote(tag)[0] == MARK && Quote(tag)[1..] == tag + [MARK];
  }

  lemma {:induction false} TagLex(tag: string, codes: seq<string>)
    requires MARK !in tag
    ensures After(In(""), tag + [MARK]) == Out && Emit(In(""), tag + [MARK]) == [tag]
    ensures Filled(In(""), tag + [MARK], codes) == CodeFor(codes, tag)
  {
    InsideRun("", tag, codes);
    assert "" + tag == tag && [MARK][1..] == "";
    LexAppend(In(""), tag, [MARK]);
    FilledAppend(In(""), tag, [MARK], codes);
  }

  lemma {:induction false} OpenNeedsClose(u: string)
    requires After(In(""), u) == Out
    ensures MARK in u
  {
    if MARK !in u {
      InsideRun("", u, []);
      assert false;
    }
  }

  lemma {:induction false} AtOpening(t: string, u: string)
    requires MARK !in t
    ensures After(Out, t + ([MARK] + u)) == After(In(""), u)
  {
    FreeIsNeat(t);
    LexAppend(Out, t, [MARK] + u);
    assert ([MARK] + u)[1..] == u;
  }

  /** The string up to and after its first placeholder. */
  lemma FirstPlaceholder(s: string) returns (t: string, tag: string, rest: string)
    requires Neat(s) && MARK in s
    ensures s == t + (Quote(tag) + rest) && MARK !in t && MARK !in tag && Neat(rest)
  {
    var u;
    t, u := SplitMark(s);
    AtOpening(t, u);
    OpenNeedsClose(u);
    tag, rest := SplitMark(u);
    SpellCell(t, tag, rest);
    FreeIsNeat(t);
    QuoteLex(tag, []);
    LexAppend(Out, t, Quote(tag) + rest);
    LexAppend(Out, Quote(tag), rest);
  }

  /** A neat text is its cells spelled out; its labels and its filling are theirs. */
  lemma {:induction false} CellsSpell(s: string, codes: seq<string>)
    requires Neat(s)
    ensures MARK !in Lead(s) && Plain(CellsOf(s)) && s == Lead(s) + Body(CellsOf(s))
    ensures Labels(s) == Tags(CellsOf(s)) && Filled(Out, s, codes) == Lead(s) + FilledBody(CellsOf(s), codes)
    decreases |s|
  {
    if MARK !in s {
      FreeIsNeat(s);
      assert Plain([]) && s + Body([]) == s;
      CellsOfBody(s, []);
    } else {
      var t, tag, rest := FirstPlaceholder(s);
      CellsSpell(rest, codes);
      CellsAt(t, tag, rest);
      PlaceholderFilled(t, tag, rest, codes);
      var cs := CellsOf(rest);
      assert ([Cell(tag, Lead(rest))] + cs)[1..] == cs;
    }
  }

  lemma {:induction false} PlaceholderFilled(t: string, tag: string, rest: string, codes: seq<string>)
    requires MARK !in t && MARK !in tag
    ensures Filled(Out, t + (Quote(tag) + rest), codes) == t + (CodeFor(codes, tag) + Filled(Out, rest, codes))
    ensures Labels(t + (Quote(tag) + rest)) == [tag] + Labels(rest)
  {
    FreeIsNeat(t);
    QuoteLex(tag, codes);
    FilledAppend(Out, t, Quote(tag) + rest, codes);
    FilledAppend(Out, Quote(tag), rest, codes);
    LexAppend(Out, t, Quote(tag) + rest);
    LexAppend(Out, Quote(tag), rest);
  }

  // ----- one step of the restore, on cells

  /** The first cell with tag d dissolved into the text before it. */
  function Put(lead: string, cs: seq<Cell>, d: string, span: string): (string, seq<Cell>)
    decreases |cs|
  {
    if cs == [] then (lead, [])
    else if cs[0].tag == d then (lead + span + cs[0].gap, cs[1..])
    else
      var (gap, rest) := Put(cs[0].gap, cs[1..], d, span);
      (lead, [Cell(cs[0].tag, gap)] + rest)
  }

  /** The text between two placeholders is the number k, and both are put back after k. */
  predicate Mimics(a: Cell, b: Cell, k: nat) {
    a.gap == Decimal(k) && NumberOf(a.tag) > k && NumberOf(b.tag) >= k
  }

  /** Such a text stands before placeholder k. */
  predicate Trap(cs: seq<Cell>, k: nat) {
    cs != [] && cs[0].tag != Decimal(k) && ((|cs| > 1 && Mimics(cs[0], cs[1], k)) || Trap(cs[1..], k))
  }

  /** Spans below i have been put back. */
  ghost predicate Late(cs: seq<Cell>, i: nat) {
    forall c :: c in cs ==> NumberOf(c.tag) >= i && (c.tag != Decimal(i) ==> NumberOf(c.tag) > i)
  }

  /** Between a mark and the next one there is one text. */
  lemma MarkMatch(d: string, x: string, y: string)
    requires MARK !in d && MARK !in x
    ensures Quote(d) <= [MARK] + (x + ([MARK] + y)) ==> d == x
  {
    var w := [MARK] + (x + ([MARK] + y));
    if Quote(d) <= w {
      assert w[|x| + 1] == MARK && Quote(d)[|d| + 1] == MARK;
      assert forall p :: 0 <= p < |x| ==> w[p + 1] == x[p];
      assert forall p :: 0 <= p < |d| ==> Quote(d)[p + 1] == d[p];
      assert d == Quote(d)[1..|d| + 1];
      assert x == w[1..|x| + 1];
    }
  }

  lemma MarkNeedsMark(d: string, x: string)
    ensures Quote(d) <= [MARK] + x ==> MARK in x
  {
    if Quote(d) <= [MARK] + x {
      assert ([MARK] + x)[|d| + 1] == Quote(d)[|d| + 1];
    }
  }

  lemma {:induction false} ReplacedHere(t: string, rest: string, r: string)
    ensures Replaced(t + rest, t, r) == r + rest
  {
    assert (t + rest)[|t|..] == rest;
  }

  lemma {:induction false} ReplacedPastMark(s: string, t: string, r: string)
    requires !(t <= [MARK] + s)
    ensures Replaced([MARK] + s, t, r) == [MARK] + Replaced(s, t, r)
  {
    assert ([MARK] + s)[1..] == s;
  }

  /** The search passes a placeholder with another tag, up to its closing mark. */
  lemma {:induction false} SkipTag(lead: string, tag: string, rest: string, d: string, r: string)
    requires MARK !in lead && MARK !in tag && MARK !in d && tag != d
    ensures Replaced(lead + (Quote(tag) + rest), Quote(d), r)
         == lead + ([MARK] + (tag + Replaced([MARK] + rest, Quote(d), r)))
  {
    SpellCell(lead, tag, rest);
    ReplacedAfter(lead, [MARK] + (tag + ([MARK] + rest)), Quote(d), r);
    MarkMatch(d, tag, rest);
    ReplacedPastMark(tag + ([MARK] + rest), Quote(d), r);
    ReplacedAfter(tag, [MARK] + rest, Quote(d), r);
  }

  /** At the closing mark: the text up to the next placeholder is taken for a tag when it is d. */
  lemma {:induction false} SkipGap(gap: string, cs: seq<Cell>, d: string, r: string)
    requires MARK !in gap && MARK !in d && Plain(cs) && (cs == [] || gap != d)
    ensures Replaced([MARK] + (gap + Body(cs)), Quote(d), r) == [MARK] + Replaced(gap + Body(cs), Quote(d), r)
  {
    if cs == [] {
      assert gap + Body(cs) == gap;
      MarkNeedsMark(d, gap);
    } else {
      var y := cs[0].tag + ([MARK] + (cs[0].gap + Body(cs[1..])));
      SpellCell(gap, cs[0].tag, cs[0].gap + Body(cs[1..]));
      MarkMatch(d, gap, y);
    }
    ReplacedPastMark(gap + Body(cs), Quote(d), r);
  }

  lemma {:induction false} DecimalUnmarked(k: nat)
    ensures MARK !in Decimal(k)
  {
    assert forall c :: c in Decimal(k) ==> IsDigit(c);
  }

  lemma {:induction false} StageRight(lead: string, cs: seq<Cell>, i: nat, span: string)
    requires MARK !in lead && Plain(cs) && Late(cs, i) && !Trap(cs, i)
    ensures var (lead', cs') := Put(lead, cs, Decimal(i), span);
            Replaced(lead + Body(cs), Quote(Decimal(i)), span) == lead' + Body(cs')
    decreases |cs|
  {
    var d := Decimal(i);
    if cs == [] {
      ReplacedAfter(lead, "", Quote(d), span);
      assert lead + "" == lead;
    } else {
      var c, rest := cs[0], cs[1..];
      assert c in cs;
      if c.tag == d {
        ReplacedAfter(lead, Quote(d) + (c.gap + Body(rest)), Quote(d), span);
        ReplacedHere(Quote(d), c.gap + Body(rest), span);
        assert lead + (span + (c.gap + Body(rest))) == (lead + span + c.gap) + Body(rest);
      } else {
        StageRight(c.gap, rest, i, span);
        DecimalUnmarked(i);
        SkipTag(lead, c.tag, c.gap + Body(rest), d, span);
        NotMimicked(cs, i);
        SkipGap(c.gap, rest, d, span);
        var (gap, more) := Put(c.gap, rest, d, span);
        SpellCell(lead, c.tag, gap + Body(more));
        assert ([Cell(c.tag, gap)] + more)[1..] == more;
      }
    }
  }

  lemma {:induction false} NotMimicked(cs: seq<Cell>, i: nat)
    requires cs != [] && Late(cs, i) && !Trap(cs, i) && cs[0].tag != Decimal(i)
    ensures |cs| > 1 ==> cs[0].gap != Decimal(i)
  {
    assert cs[0] in cs && (|cs| > 1 ==> cs[1] in cs);
  }

  lemma {:induction false} UntameInside(lead: string, tag: string, code: string, rest: string)
    requires MARK !in lead && MARK !in tag
    ensures !Tame(Out, lead + ([MARK] + (tag + (Span(code) + rest))))
  {
    var inner := tag + (Span(code) + rest);
    FreeIsNeat(lead);
    LexAppend(Out, lead, [MARK] + inner);
    assert ([MARK] + inner)[1..] == inner;
    InsideRun("", tag, []);
    LexAppend(In(""), tag, Span(code) + rest);
    assert (Span(code) + rest)[0] == '<';
  }

  lemma {:induction false} UntameLater(lead: string, tag: string, rest: string)
    requires MARK !in lead && MARK !in tag && !Tame(Out, rest)
    ensures !Tame(Out, lead + ([MARK] + (tag + ([MARK] + rest))))
  {
    SpellCell(lead, tag, rest);
    FreeIsNeat(lead);
    QuoteLex(tag, []);
    LexAppend(Out, lead, Quote(tag) + rest);
    LexAppend(Out, Quote(tag), rest);
  }

  lemma GapTaken(d: string, cs: seq<Cell>, r: string) returns (more: string)
    requires cs != []
    ensures Replaced([MARK] + (d + Body(cs)), Quote(d), r) == r + more
  {
    more := cs[0].tag + [MARK] + (cs[0].gap + Body(cs[1..]));
    assert [MARK] + (d + Body(cs)) == Quote(d) + more;
    ReplacedHere(Quote(d), more, r);
  }

  /** In a trap, a span is written into the middle of a placeholder. */
  lemma {:induction false} StageWrong(lead: string, cs: seq<Cell>, i: nat, code: string)
    requires MARK !in lead && Plain(cs) && Trap(cs, i)
    ensures !Tame(Out, Replaced(lead + Body(cs), Quote(Decimal(i)), Span(code)))
    decreases |cs|
  {
    var d, c, rest := Decimal(i), cs[0], cs[1..];
    assert c in cs;
    DecimalUnmarked(i);
    SkipTag(lead, c.tag, c.gap + Body(rest), d, Span(code));
    if rest != [] && c.gap == d {
      var more := GapTaken(d, rest, Span(code));
      UntameInside(lead, c.tag, code, more);
    } else {
      StageWrong(c.gap, rest, i, code);
      SkipGap(c.gap, rest, d, Span(code));
      UntameLater(lead, c.tag, Replaced(c.gap + Body(rest), Quote(d), Span(code)));
    }
  }

  /** Nothing later mends it. */
  lemma {:induction false} StaysUntame(l: Lex, s: string, d: string, code: string)
    requires !Tame(l, s) && MARK !in d && (forall c :: c in d ==> IsDigit(c)) && MARK !in code
    ensures !Tame(l, Replaced(s, Quote(d), Span(code)))
    decreases |s|
  {
    if Quote(d) <= s {
      var rest := s[|Quote(d)|..];
      assert s == Quote(d) + rest;
      UntameReplaced(l, d, code, rest);
    } else {
      if !Tame(Next(l, s[0]), s[1..]) {
        StaysUntame(Next(l, s[0]), s[1..], d, code);
      }
      var r := Replaced(s[1..], Quote(d), Span(code));
      assert ([s[0]] + r)[0] == s[0] && ([s[0]] + r)[1..] == r;
    }
  }

  lemma {:induction false} UntameReplaced(l: Lex, d: string, code: string, rest: string)
    requires !Tame(l, Quote(d) + rest) && MARK !in d && (forall c :: c in d ==> IsDigit(c)) && MARK !in code
    ensures !Tame(l, Span(code) + rest)
  {
    if l.In? {
      assert (Span(code) + rest)[0] == '<';
    } else {
      QuoteTame(d);
      LexAppend(Out, Quote(d), rest);
      SpanFree(code);
      FreeIsNeat(Span(code));
      LexAppend(Out, Span(code), rest);
    }
  }

  lemma QuoteTame(d: string)
    requires MARK !in d && forall c :: c in d ==> IsDigit(c)
    ensures Tame(Out, Quote(d)) && After(Out, Quote(d)) == Out
  {
    DigitsInside("", d);
    LexAppend(In(""), d, [MARK]);
    assert Quote(d)[1..] == d + [MARK] && "" + d == d && [MARK][1..] == "";
  }

  lemma SpanFree(code: string)
    requires MARK !in code
    ensures MARK !in Span(code)
  {
    assert MARK !in "<code>" && MARK !in "</code>";
  }

  // ----- the whole loop

  /** The cells carry the numerals from i to n, each once. */
  ghost predicate Carries(cs: seq<Cell>, i: nat, n: nat) {
    multiset(Tags(cs)) == multiset(Numerals(i, n))
  }

  lemma {:induction false} NumeralAt(i: nat, n: nat, t: string)
    requires t in Numerals(i, n)
    ensures exists k: nat :: i <= k <= n && t == Decimal(k)
    decreases n + 1 - i
  {
    if t == Decimal(i) {
      assert i <= i <= n;
    } else {
      NumeralAt(i + 1, n, t);
    }
  }

  lemma CarriedTag(cs: seq<Cell>, i: nat, n: nat, c: Cell) returns (k: nat)
    requires Carries(cs, i, n) && c in cs
    ensures i <= k <= n && c.tag == Decimal(k) && NumberOf(c.tag) == k
  {
    var p :| 0 <= p < |cs| && cs[p] == c;
    assert Tags(cs)[p] in multiset(Tags(cs));
    assert c.tag in Numerals(i, n);
    NumeralAt(i, n, c.tag);
    k :| i <= k <= n && c.tag == Decimal(k);
    NumberOfDecimal(k);
  }

  lemma CarriesLate(cs: seq<Cell>, i: nat, n: nat)
    requires Carries(cs, i, n)
    ensures Late(cs, i)
  {
    forall c | c in cs
      ensures NumberOf(c.tag) >= i && (c.tag != Decimal(i) ==> NumberOf(c.tag) > i)
    {
      var k := CarriedTag(cs, i, n, c);
    }
  }

  /** What putting back span i leaves. */
  lemma {:induction false} PutKeeps(lead: string, cs: seq<Cell>, i: nat, codes: seq<string>)
    requires MARK !in lead && Plain(cs) && 1 <= i <= |codes| && MARK !in codes[i - 1]
    ensures var (lead', cs') := Put(lead, cs, Decimal(i), Span(codes[i - 1]));
            && MARK !in lead' && Plain(cs')
            && lead' + FilledBody(cs', codes) == lead + FilledBody(cs, codes)
            && (Decimal(i) in Tags(cs) ==> multiset(Tags(cs')) == multiset(Tags(cs)) - multiset{Decimal(i)})
    decreases |cs|
  {
    if cs != [] {
      var d, span, c, rest := Decimal(i), Span(codes[i - 1]), cs[0], cs[1..];
      assert c in cs;
      assert Plain(rest);
      SpanFree(codes[i - 1]);
      if c.tag == d {
        NumberOfDecimal(i);
        PutHere(lead, span, c.gap, FilledBody(rest, codes));
        assert Tags(cs) == [d] + Tags(rest);
      } else {
        PutKeeps(c.gap, rest, i, codes);
        var (gap, more) := Put(c.gap, rest, d, span);
        PutLater(c, rest, gap, more, d, codes);
        FirstCell(cs);
      }
    }
  }

  lemma PutHere(lead: string, span: string, gap: string, filled: string)
    ensures (lead + span + gap) + filled == lead + (span + (gap + filled))
  {
  }

  /** The cells after c changed as they should: so do those from c on. */
  lemma {:induction false} PutLater(c: Cell, rest: seq<Cell>, gap: string, more: seq<Cell>, d: string,
                                    codes: seq<string>)
    requires MARK !in c.tag && c.tag != d && MARK !in gap && Plain(more)
    requires gap + FilledBody(more, codes) == c.gap + FilledBody(rest, codes)
    requires d in Tags(rest) ==> multiset(Tags(more)) == multiset(Tags(rest)) - multiset{d}
    ensures var cs, cs' := [c] + rest, [Cell(c.tag, gap)] + more;
            && Plain(cs')
            && FilledBody(cs', codes) == FilledBody(cs, codes)
            && (d in Tags(cs) ==> multiset(Tags(cs')) == multiset(Tags(cs)) - multiset{d})
  {
    var c' := Cell(c.tag, gap);
    assert ([c] + rest)[1..] == rest && ([c'] + more)[1..] == more;
    OtherTag(c.tag, Tags(rest), Tags(more), d);
  }

  lemma OtherTag(t: string, before: seq<string>, after: seq<string>, d: string)
    requires t != d && (d in before ==> multiset(after) == multiset(before) - multiset{d})
    ensures d in [t] + before ==> multiset([t] + after) == multiset([t] + before) - multiset{d}
  {
    if d in before {
      assert multiset([t] + after) == multiset{t} + multiset(after);
      assert multiset([t] + before) == multiset{t} + multiset(before);
    }
  }

  lemma {:induction false} OtherNumeral(i: nat, k: nat)
    requires i < k
    ensures Decimal(i) != Decimal(k) && NumberOf(Decimal(i)) < k
  {
    NumberOfDecimal(i);
    NumberOfDecimal(k);
  }

  lemma {:induction false} PutShape(lead: string, cs: seq<Cell>, d: string, span: string)
    requires cs != [] && cs[0].tag != d
    ensures var (lead', cs') := Put(lead, cs, d, span);
            lead' == lead && cs' != [] && cs'[0].tag == cs[0].tag
  {
  }

  lemma {:induction false} SpanInGap(a: string, code: string, b: string, k: nat)
    ensures a + Span(code) + b != Decimal(k)
  {
    var s := a + Span(code) + b;
    assert s[|a|] == '<' && s[|a|] in s;
    assert forall c :: c in Decimal(k) ==> IsDigit(c);
  }

  lemma {:induction false} FirstPutTraps(cs: seq<Cell>, i: nat, k: nat)
    requires i < k && cs != [] && cs[0].tag == Decimal(i)
    ensures Trap(cs, k) <==> Trap(cs[1..], k)
  {
    OtherNumeral(i, k);
  }

  /** Putting back span i makes no trap for a later one, and mends none. */
  lemma {:induction false} PutTraps(lead: string, cs: seq<Cell>, i: nat, code: string, k: nat)
    requires i < k
    ensures Trap(Put(lead, cs, Decimal(i), Span(code)).1, k) <==> Trap(cs, k)
    decreases |cs|
  {
    var d, span := Decimal(i), Span(code);
    if cs != [] && cs[0].tag == d {
      FirstPutTraps(cs, i, k);
    } else if |cs| > 1 {
      OtherNumeral(i, k);
      var (gap, more) := Put(cs[0].gap, cs[1..], d, span);
      assert ([Cell(cs[0].tag, gap)] + more)[1..] == more;
      PutTraps(cs[0].gap, cs[1..], i, code, k);
      if cs[1].tag == d {
        SpanInGap(cs[0].gap, code, cs[1].gap, k);
      } else {
        PutShape(cs[0].gap, cs[1..], d, span);
      }
    }
  }

  ghost predicate Trapless(cs: seq<Cell>, i: nat, n: nat) {
    forall k: nat :: i <= k <= n ==> !Trap(cs, k)
  }

  lemma {:induction false} LaterUntame(s: string, codes: seq<string>, i: nat)
    requires 1 <= i && !Tame(Out, s) && MarkFree(codes)
    ensures !Tame(Out, RestoreFrom(s, codes, i))
    decreases |codes| + 1 - i
  {
    if i <= |codes| {
      RestoreReplaces(s, codes, i);
      DecimalUnmarked(i);
      assert codes[i - 1] in codes;
      StaysUntame(Out, s, Decimal(i), codes[i - 1]);
      LaterUntame(RestoreOne(s, codes, i), codes, i + 1);
    }
  }

  lemma NextCarries(cs: seq<Cell>, cs': seq<Cell>, i: nat, n: nat)
    requires i <= n && Carries(cs, i, n)
    requires Decimal(i) in Tags(cs) ==> multiset(Tags(cs')) == multiset(Tags(cs)) - multiset{Decimal(i)}
    ensures Carries(cs', i + 1, n)
  {
    NumeralsFrom(i, n);
    assert Decimal(i) in multiset(Tags(cs));
  }

  lemma NumeralsFrom(i: nat, n: nat)
    requires i <= n
    ensures multiset(Numerals(i, n)) == multiset{Decimal(i)} + multiset(Numerals(i + 1, n))
  {
    assert Numerals(i, n) == [Decimal(i)] + Numerals(i + 1, n);
  }

  lemma {:induction false} NextTrapless(lead: string, cs: seq<Cell>, code: string, i: nat, n: nat)
    requires !Trap(cs, i)
    ensures Trapless(Put(lead, cs, Decimal(i), Span(code)).1, i + 1, n) <==> Trapless(cs, i, n)
  {
    var cs' := Put(lead, cs, Decimal(i), Span(code)).1;
    forall k: nat | i + 1 <= k <= n
      ensures Trap(cs', k) <==> Trap(cs, k)
    {
      PutTraps(lead, cs, i, code, k);
    }
  }

  /** Without a trap the loop from i on is one simultaneous substitution; with one, a span ends
      up inside a placeholder and its marks stay in the text. */
  ghost predicate Fills(lead: string, cs: seq<Cell>, codes: seq<string>, i: nat)
    requires i >= 1
  {
    var out := RestoreFrom(lead + Body(cs), codes, i);
    if Trapless(cs, i, |codes|) then out == lead + FilledBody(cs, codes) else !Tame(Out, out)
  }

  datatype Text = Text(lead: string, cells: seq<Cell>)

  /** What the loop relies on before putting back span i. */
  ghost predicate Ready(t: Text, codes: seq<string>, i: nat) {
    && 1 <= i <= |codes| + 1
    && MARK !in t.lead && Plain(t.cells) && MarkFree(codes) && Carries(t.cells, i, |codes|)
  }

  /** A claim about a text at i that is settled, or follows from one about the next text. */
  ghost predicate Follows(ready: (Text, nat) -> bool, claim: (Text, nat) -> bool, t: Text, i: nat) {
    claim(t, i) || exists u :: Leads(ready, claim, t, u, i)
  }

  ghost predicate Leads(ready: (Text, nat) -> bool, claim: (Text, nat) -> bool, t: Text, u: Text, i: nat) {
    ready(u, i + 1) && (claim(u, i + 1) ==> claim(t, i))
  }

  lemma {:induction false} LoopInduction(ready: (Text, nat) -> bool, claim: (Text, nat) -> bool, n: nat, t: Text,
                                         i: nat)
    requires ready(t, i)
    requires forall u: Text, k: nat | ready(u, k) :: k <= n && Follows(ready, claim, u, k)
    ensures claim(t, i)
    decreases n + 1 - i
  {
    if !claim(t, i) {
      var u :| Leads(ready, claim, t, u, i);
      LoopInduction(ready, claim, n, u, i + 1);
    }
  }

  lemma RestoreFills(lead: string, cs: seq<Cell>, codes: seq<string>, i: nat)
    requires Ready(Text(lead, cs), codes, i)
    ensures Fills(lead, cs, codes, i)
  {
    var ready := (t: Text, k: nat) => Ready(t, codes, k);
    var claim := (t: Text, k: nat) => k >= 1 && Fills(t.lead, t.cells, codes, k);
    forall t: Text, k: nat | ready(t, k)
      ensures k <= |codes| + 1 && Follows(ready, claim, t, k)
    {
      StageFollows(t, codes, k, ready, claim);
    }
    LoopInduction(ready, claim, |codes| + 1, Text(lead, cs), i);
  }

  lemma StageFollows(t: Text, codes: seq<string>, i: nat, ready: (Text, nat) -> bool, claim: (Text, nat) -> bool)
    requires Ready(t, codes, i)
    requires forall u: Text, k: nat :: ready(u, k) == Ready(u, codes, k)
    requires forall u: Text, k: nat :: claim(u, k) == (k >= 1 && Fills(u.lead, u.cells, codes, k))
    ensures Follows(ready, claim, t, i)
  {
    var done, lead', cs' := Stage(t.lead, t.cells, codes, i);
    if !done {
      var u := Text(lead', cs');
      if Fills(lead', cs', codes, i + 1) {
        FillsBefore(t.lead, t.cells, lead', cs', codes, i);
      }
      assert Leads(ready, claim, t, u, i);
    }
  }

  /** One step: the claim is settled, or follows from the claim about what the step leaves. */
  lemma Stage(lead: string, cs: seq<Cell>, codes: seq<string>, i: nat)
      returns (done: bool, lead': string, cs': seq<Cell>)
    requires 1 <= i <= |codes| + 1 && MARK !in lead && Plain(cs) && MarkFree(codes)
    requires Carries(cs, i, |codes|)
    ensures done ==> Fills(lead, cs, codes, i)
    ensures !done ==> i <= |codes| && MARK !in lead' && Plain(cs') && Carries(cs', i + 1, |codes|)
    ensures !done ==> Leaves(lead, cs, lead', cs', codes, i)
  {
    done, lead', cs' := i > |codes| || Trap(cs, i), lead, cs;
    if i > |codes| {
      FillsAtEnd(lead, cs, codes);
    } else if done {
      FillsTrapped(lead, cs, codes, i);
    } else {
      lead', cs' := RestoreRight(lead, cs, codes, i);
    }
  }

  ghost predicate Leaves(lead: string, cs: seq<Cell>, lead': string, cs': seq<Cell>, codes: seq<string>, i: nat)
    requires 1 <= i <= |codes|
  {
    && RestoreOne(lead + Body(cs), codes, i) == lead' + Body(cs')
    && lead' + FilledBody(cs', codes) == lead + FilledBody(cs, codes)
    && (Trapless(cs', i + 1, |codes|) <==> Trapless(cs, i, |codes|))
  }

  lemma FillsAtEnd(lead: string, cs: seq<Cell>, codes: seq<string>)
    requires Carries(cs, |codes| + 1, |codes|)
    ensures Fills(lead, cs, codes, |codes| + 1)
  {
    assert |multiset(Tags(cs))| == |cs|;
  }

  lemma {:induction false} FillsTrapped(lead: string, cs: seq<Cell>, codes: seq<string>, i: nat)
    requires 1 <= i <= |codes| && MARK !in lead && Plain(cs) && MarkFree(codes) && Trap(cs, i)
    ensures Fills(lead, cs, codes, i)
  {
    RestoreWrong(lead, cs, codes, i);
  }

  lemma FillsBefore(lead: string, cs: seq<Cell>, lead': string, cs': seq<Cell>, codes: seq<string>, i: nat)
    requires 1 <= i <= |codes| && Leaves(lead, cs, lead', cs', codes, i) && Fills(lead', cs', codes, i + 1)
    ensures Fills(lead, cs, codes, i)
  {
    RestoreUnfold(lead + Body(cs), codes, i);
  }

  lemma RestoreUnfold(s: string, codes: seq<string>, i: nat)
    requires 1 <= i <= |codes|
    ensures RestoreFrom(s, codes, i) == RestoreFrom(RestoreOne(s, codes, i), codes, i + 1)
  {
  }

  lemma {:induction false} RestoreWrong(lead: string, cs: seq<Cell>, codes: seq<string>, i: nat)
    requires 1 <= i <= |codes| && MARK !in lead && Plain(cs) && MarkFree(codes) && Trap(cs, i)
    ensures !Tame(Out, RestoreFrom(lead + Body(cs), codes, i))
  {
    var s := lead + Body(cs);
    RestoreReplaces(s, codes, i);
    StageWrong(lead, cs, i, codes[i - 1]);
    RestoreUnfold(s, codes, i);
    LaterUntame(RestoreOne(s, codes, i), codes, i + 1);
  }

  lemma RestoreRight(lead: string, cs: seq<Cell>, codes: seq<string>, i: nat)
      returns (lead': string, cs': seq<Cell>)
    requires 1 <= i <= |codes| && MARK !in lead && Plain(cs) && MarkFree(codes)
    requires Carries(cs, i, |codes|) && !Trap(cs, i)
    ensures RestoreOne(lead + Body(cs), codes, i) == lead' + Body(cs')
    ensures MARK !in lead' && Plain(cs') && Carries(cs', i + 1, |codes|)
    ensures lead' + FilledBody(cs', codes) == lead + FilledBody(cs, codes)
    ensures Trapless(cs', i + 1, |codes|) <==> Trapless(cs, i, |codes|)
  {
    var put := Put(lead, cs, Decimal(i), Span(codes[i - 1]));
    lead', cs' := put.0, put.1;
    assert codes[i - 1] in codes;
    RestoreReplaces(lead + Body(cs), codes, i);
    CarriesLate(cs, i, |codes|);
    StageRight(lead, cs, i, Span(codes[i - 1]));
    PutKeeps(lead, cs, i, codes);
    NextCarries(cs, cs', i, |codes|);
    NextTrapless(lead, cs, codes[i - 1], i, |codes|);
  }

  // ----- the whole pass

  /** A number standing alone between two placeholders, both of spans put back no earlier than
      the span of that number, and before that span's own placeholder. */
  ghost predicate Misread(cs: seq<Cell>, k: nat) {
    exists p :: 0 <= p < |cs| - 1 && Mimics(cs[p], cs[p + 1], k) && Earlier(cs, p, k)
  }

  ghost predicate Earlier(cs: seq<Cell>, p: nat, k: nat) {
    forall q :: 0 <= q <= p && q < |cs| ==> cs[q].tag != Decimal(k)
  }

  lemma {:induction false} TrapMeaning(cs: seq<Cell>, k: nat)
    ensures Trap(cs, k) <==> Misread(cs, k)
  {
    if cs != [] && cs[0].tag != Decimal(k) {
      TrapMeaning(cs[1..], k);
      if Misread(cs[1..], k) {
        var p :| 0 <= p < |cs[1..]| - 1 && Mimics(cs[1..][p], cs[1..][p + 1], k) && Earlier(cs[1..], p, k);
        assert forall q :: 1 <= q <= p + 1 ==> cs[q] == cs[1..][q - 1];
        assert Mimics(cs[p + 1], cs[p + 2], k) && Earlier(cs, p + 1, k);
      }
      if |cs| > 1 && Mimics(cs[0], cs[1], k) {
        assert Mimics(cs[0], cs[0 + 1], k) && Earlier(cs, 0, k);
      }
      if Misread(cs, k) {
        var p :| 0 <= p < |cs| - 1 && Mimics(cs[p], cs[p + 1], k) && Earlier(cs, p, k);
        if p > 0 {
          assert forall q :: 0 <= q < |cs| - 1 ==> cs[1..][q] == cs[q + 1];
          assert Mimics(cs[1..][p - 1], cs[1..][p], k) && Earlier(cs[1..], p - 1, k);
        }
      }
    }
  }

  /** No number in the text is taken for a placeholder. */
  ghost predicate Readable(m: string, n: nat) {
    forall k: nat :: 1 <= k <= n ==> !Misread(CellsOf(m), k)
  }

  lemma {:induction false} FilledFree(cs: seq<Cell>, codes: seq<string>)
    requires Plain(cs) && MarkFree(codes)
    requires forall c :: c in cs ==> 1 <= NumberOf(c.tag) <= |codes|
    ensures MARK !in FilledBody(cs, codes)
  {
    if cs != [] {
      assert cs[0] in cs && Plain(cs[1..]);
      var code := codes[NumberOf(cs[0].tag) - 1];
      assert code in codes;
      SpanFree(code);
      FilledFree(cs[1..], codes);
    }
  }

  /** What the markup of a text with n held-out spans restores to. */
  lemma {:induction false} RestoredIff(m: string, codes: seq<string>)
    requires Neat(m) && MarkFree(codes) && multiset(Labels(m)) == multiset(Numerals(1, |codes|))
    ensures RestoreFrom(m, codes, 1) == Filled(Out, m, codes) <==> Readable(m, |codes|)
    ensures MARK !in RestoreFrom(m, codes, 1) <==> Readable(m, |codes|)
  {
    var lead, cs := Lead(m), CellsOf(m);
    CellsSpell(m, codes);
    RestoreFills(lead, cs, codes, 1);
    TraplessReadable(m, |codes|);
    forall c | c in cs
      ensures 1 <= NumberOf(c.tag) <= |codes|
    {
      var k := CarriedTag(cs, 1, |codes|, c);
    }
    FilledFree(cs, codes);
    if !Readable(m, |codes|) {
      UntameMarked(RestoreFrom(m, codes, 1));
    }
  }

  lemma {:induction false} TraplessReadable(m: string, n: nat)
    ensures Trapless(CellsOf(m), 1, n) <==> Readable(m, n)
  {
    forall k: nat
      ensures Trap(CellsOf(m), k) <==> Misread(CellsOf(m), k)
    {
      TrapMeaning(CellsOf(m), k);
    }
  }

  lemma {:induction false} UntameMarked(s: string)
    requires !Tame(Out, s)
    ensures MARK in s
  {
    if MARK !in s {
      FreeIsNeat(s);
    }
  }

  /** For input without the mark, every span comes back verbatim, exactly once and in the place
      of its placeholder, if and only if no number is taken for a placeholder; if one is, marks
      are left in the output. */
  lemma InlineRestoresIff(s: string)
    requires MARK !in s
    ensures var m, codes := Markup(HeldOut(Split(s))), CodesOf(Split(s));
            && multiset(Labels(m)) == multiset(Numerals(1, |codes|))
            && (Inline(s) == Filled(Out, m, codes) <==> Readable(m, |codes|))
            && (MARK !in Inline(s) <==> Readable(m, |codes|))
  {
    HeldOutFacts(s);
    MarkupKeepsEach(HeldOut(Split(s)));
    RestoredIff(Markup(HeldOut(Split(s))), CodesOf(Split(s)));
  }

  // ----- in order

  /** Placeholders in order leave no room for a trap. */
  lemma {:induction false} OrderedReadable(m: string, n: nat)
    requires Neat(m) && Labels(m) == Numerals(1, n)
    ensures Readable(m, n)
  {
    var cs := CellsOf(m);
    CellsSpell(m, []);
    NumeralsAre(1, n);
    assert forall q :: 0 <= q < |cs| ==> cs[q].tag == Tags(cs)[q] == Decimal(1 + q);
    forall k: nat | 1 <= k <= n
      ensures !Misread(cs, k)
    {
      forall p | 0 <= p < |cs| - 1 && Mimics(cs[p], cs[p + 1], k)
        ensures !Earlier(cs, p, k)
      {
        NotBefore(cs, p, k);
      }
    }
  }

  lemma NotBefore(cs: seq<Cell>, p: nat, k: nat)
    requires 1 <= k && p < |cs| && NumberOf(cs[p].tag) > k
    requires forall q :: 0 <= q < |cs| ==> cs[q].tag == Decimal(1 + q)
    ensures !Earlier(cs, p, k)
  {
    NumberOfDecimal(1 + p);
    assert cs[k - 1].tag == Decimal(k);
  }

  lemma {:induction false} NumeralsAre(i: nat, n: nat)
    ensures i <= n ==> |Numerals(i, n)| == n + 1 - i
    ensures forall p :: 0 <= p < |Numerals(i, n)| ==> Numerals(i, n)[p] == Decimal(i + p)
    decreases n + 1 - i
  {
    if i <= n {
      NumeralsAre(i + 1, n);
    }
  }

  /** The output is the text with every span verbatim, exactly once and in order, if and only if
      no link holds spans on both sides. */
  lemma SpansInOrderIff(s: string)
    requires MARK !in s
    ensures var h, codes := HeldOut(Split(s)), CodesOf(Split(s));
            && (Labels(Markup(h)) == Numerals(1, |codes|) <==> LinksOrdered(h))
            && (LinksOrdered(h) ==> Inline(s) == Filled(Out, Markup(h), codes))
  {
    var h := HeldOut(Split(s));
    HeldOutFacts(s);
    MarkupOrderIff(h);
    MarkupKeepsEach(h);
    InlineRestoresIff(s);
    if LinksOrdered(h) {
      OrderedReadable(Markup(h), |CodesOf(Split(s))|);
    }
  }
}
