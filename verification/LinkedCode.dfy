/** Links with code on both sides: the target is printed before the text, so the spans change
    places, and a number standing alone in the target can be taken for a placeholder. */
module LinkedCode {
  import opened Strings
  import opened Markdown
  import opened Spans
  import opened Restore

  lemma {:induction false} PiecesAtTick(a: string, rest: string)
    requires '`' !in a
    ensures Pieces(a + ("`" + rest)) == [a] + Pieces(rest)
  {
    var s := a + ("`" + rest);
    if a == "" {
      assert s[1..] == rest;
    } else {
      assert s[0] == a[0] && s[1..] == a[1..] + ("`" + rest);
      PiecesAtTick(a[1..], rest);
      assert a == [a[0]] + a[1..];
    }
  }

  lemma {:induction false} NextAtFinds(a: string, x: string, c: char, b: string)
    requires c !in x
    ensures NextAt(a + (x + ([c] + b)), c, |a|) == |a| + |x|
    decreases |x|
  {
    var s := a + (x + ([c] + b));
    if x == "" {
      assert s[|a|] == c;
    } else {
      assert s[|a|] == x[0];
      assert s == (a + [x[0]]) + (x[1..] + ([c] + b));
      NextAtFinds(a + [x[0]], x[1..], c, b);
    }
  }

  /** A whole string that is one link keeps its spans in order unless both sides hold one. */
  lemma {:induction false} OneLinkOrdered(text: string, target: string)
    requires ']' !in text && ')' !in target
    ensures LinksOrdered("[" + (text + ("](" + (target + ")")))) <==> Labels(text) == [] || Labels(target) == []
  {
    var s := "[" + (text + ("](" + (target + ")")));
    OneLinkParts(text, target);
    assert First(s, LinkAt, 0) == 0;
    assert First("", LinkAt, 0) == 0;
  }

  lemma OneLinkParts(text: string, target: string)
    requires ']' !in text && ')' !in target
    ensures var s := "[" + (text + ("](" + (target + ")")));
            LinkAt(s, 0) && LinkText(s, 0) == text && LinkTarget(s, 0) == target && AfterLink(s, 0) == ""
  {
    var s := "[" + (text + ("](" + (target + ")")));
    var q := 1 + |text|;
    assert s == "[" + (text + ([']'] + ("(" + (target + ")"))));
    NextAtFinds("[", text, ']', "(" + (target + ")"));
    var front := "[" + (text + "](");
    assert s == front + (target + ([')'] + ""));
    NextAtFinds(front, target, ')', "");
    assert s[1..q] == text && s[q + 2..q + 2 + |target|] == target;
  }

  /** A text without stars has nothing to replace. */
  lemma {:induction false} BoldPlain(t: string)
    requires '*' !in t
    ensures Bold(t) == t
  {
    assert forall p: nat :: p < |t| ==> t[p] != '*';
    assert forall p: nat :: !BoldAt(t, p) && !EmAt(t, p);
  }

  lemma {:induction false} NoSuch(s: string, c: char, p: nat)
    requires c !in s && p <= |s|
    ensures NextAt(s, c, p) == |s|
    decreases |s| - p
  {
    if p < |s| {
      assert s[p] in s;
      NoSuch(s, c, p + 1);
    }
  }

  /** A target that starts and ends with a placeholder is left alone. */
  lemma HrefPlain(t: string)
    requires '#' !in t && |t| >= 3 && t[0] == MARK && t[|t| - 1] == MARK
    ensures Href(t) == t
  {
    NoSuch(t, '#', 0);
    assert t[..|t|] == t && t[|t|..] == "";
    assert t[|t| - 3..][2] == MARK;
  }

  /** The markup of a text that is one link between two runs of placeholders. */
  lemma {:induction false} OneLinkMarkup(text: string, target: string)
    requires ']' !in text && ')' !in target && '*' !in text && '#' !in target
    requires |target| >= 3 && target[0] == MARK && target[|target| - 1] == MARK
    ensures Markup("[" + (text + ("](" + (target + ")")))) == Row("<a href=\"", target, "\">", text, "</a>")
  {
    var s := "[" + (text + ("](" + (target + ")")));
    OneLinkParts(text, target);
    assert First(s, LinkAt, 0) == 0;
    assert s[..0] == "" && First("", LinkAt, 0) == 0;
    BoldPlain("");
    BoldPlain(text);
    HrefPlain(target);
    assert Markup("") == "";
    assert Anchor(s, 0) == Row("<a href=\"", target, "\">", text, "</a>");
  }

  lemma OnlyDigits(k: nat)
    ensures forall c :: c in Placeholder(k) ==> c == MARK || IsDigit(c)
  {
  }

  lemma LastPiece()
    ensures Pieces(")") == [")"]
  {
    var s := ")";
    var r := Pieces(s[1..]);
    assert s[1..] == "" && r == [""];
    assert [s[0]] + r[0] == s;
    assert Pieces(s) == [[s[0]] + r[0]] + r[1..];
  }

  lemma HeldThree(p0: string, p1: string, p2: string)
    ensures HeldOut([p0, p1, p2]) == p0 + Placeholder(1) + p2
  {
    HeldTwo(p0, p1);
    HoldSnoc([p0, p1], p2);
    assert [p0, p1] + [p2] == [p0, p1, p2];
  }

  lemma HeldTwo(p0: string, p1: string)
    ensures HeldOut([p0, p1]) == p0 + Placeholder(1) && CodesOf([p0, p1]) == [p1]
  {
    HoldSnoc([], p0);
    assert [] + [p0] == [p0] && HeldOut([]) == "" && "" + p0 == p0;
    HoldSnoc([p0], p1);
    assert [p0] + [p1] == [p0, p1];
  }

  lemma HeldFive(p0: string, p1: string, p2: string, p3: string, p4: string)
    ensures HeldOut([p0, p1, p2, p3, p4]) == p0 + (Placeholder(1) + (p2 + (Placeholder(2) + p4)))
  {
    HeldThree(p0, p1, p2);
    HoldSnoc([p0, p1, p2], p3);
    HoldSnoc([p0, p1, p2, p3], p4);
    assert [p0, p1, p2] + [p3] == [p0, p1, p2, p3] && [p0, p1, p2, p3] + [p4] == [p0, p1, p2, p3, p4];
    FiveParts(p0, Placeholder(1), p2, Placeholder(2), p4);
  }

  lemma FiveParts(a: string, b: string, c: string, d: string, e: string)
    ensures a + b + c + d + e == a + (b + (c + (d + e)))
  {
  }

  // ----- one span on each side

  /** A link whose text and target are a code span each. */
  function BothSides(a: string, b: string): string {
    "[" + ("`" + (a + ("`" + ("](" + ("`" + (b + ("`" + ")")))))))
  }

  lemma BothSidesSplit(a: string, b: string)
    requires '`' !in a && '`' !in b
    ensures Split(BothSides(a, b)) == ["[", a, "](", b, ")"]
  {
    var s3 := b + ("`" + ")");
    var s2 := "](" + ("`" + s3);
    var s1 := a + ("`" + s2);
    LastPiece();
    PiecesAtTick(b, ")");
    assert Pieces(s3) == [b, ")"];
    PiecesAtTick("](", s3);
    assert Pieces(s2) == ["](", b, ")"];
    PiecesAtTick(a, s2);
    assert Pieces(s1) == [a, "](", b, ")"];
    PiecesAtTick("[", s1);
  }

  /** What the markup of a link leaves of its placeholders: those of the target, then the text's. */
  function Printed(target: string, text: string): string {
    Row("<a href=\"", target, "\">", text, "</a>")
  }

  lemma BothSidesMarkup(a: string, b: string)
    requires '`' !in a && '`' !in b
    ensures Markup(HeldOut(Split(BothSides(a, b)))) == Printed(Placeholder(2), Placeholder(1))
  {
    BothSidesSplit(a, b);
    HeldFive("[", a, "](", b, ")");
    OnlyDigits(1);
    OnlyDigits(2);
    OneLinkMarkup(Placeholder(1), Placeholder(2));
  }

  lemma BothSidesCodes(a: string, b: string)
    requires '`' !in a && '`' !in b
    ensures CodesOf(Split(BothSides(a, b))) == [a, b]
  {
    BothSidesSplit(a, b);
    CodesThree("[", a, "](");
    HoldSnoc(["[", a, "]("], b);
    HoldSnoc(["[", a, "](", b], ")");
    assert ["[", a, "]("] + [b] == ["[", a, "](", b] && ["[", a, "](", b] + [")"] == ["[", a, "](", b, ")"];
  }

  lemma CodesThree(p0: string, p1: string, p2: string)
    ensures CodesOf([p0, p1, p2]) == [p1]
  {
    HeldTwo(p0, p1);
    HoldSnoc([p0, p1], p2);
    assert [p0, p1] + [p2] == [p0, p1, p2];
  }

  lemma PrintedCells(tag: string, text: string)
    ensures Printed(Quote(tag), Quote(text)) == "<a href=\"" + Body([Cell(tag, "\">"), Cell(text, "</a>")])
  {
    var c, d := Cell(tag, "\">"), Cell(text, "</a>");
    assert [c, d][1..] == [d] && [d][1..] == [];
    assert Body([d]) == Quote(text) + ("</a>" + "");
  }

  /** A search that finds neither a tag nor a text between two placeholders changes nothing. */
  lemma {:induction false} NotFound(lead: string, cs: seq<Cell>, d: string, r: string)
    requires MARK !in lead && Plain(cs) && MARK !in d && forall c :: c in cs ==> c.tag != d && c.gap != d
    ensures Replaced(lead + Body(cs), Quote(d), r) == lead + Body(cs)
    decreases |cs|
  {
    if cs == [] {
      ReplacedAfter(lead, "", Quote(d), r);
      assert lead + "" == lead;
    } else {
      var c, rest := cs[0], cs[1..];
      assert c in cs;
      NotFound(c.gap, rest, d, r);
      SkipTag(lead, c.tag, c.gap + Body(rest), d, r);
      SkipGap(c.gap, rest, d, r);
      SpellCell(lead, c.tag, c.gap + Body(rest));
    }
  }

  const TEXT_LAST: Cell := Cell(Decimal(1), "</a>")

  lemma TwoCells(tag: string)
    requires MARK !in tag
    ensures var m := Printed(Quote(tag), Placeholder(1));
            && Lead(m) == "<a href=\"" && CellsOf(m) == [Cell(tag, "\">"), TEXT_LAST]
            && m == Lead(m) + Body(CellsOf(m))
  {
    DecimalUnmarked(1);
    PrintedCells(tag, Decimal(1));
    CellsOfBody("<a href=\"", [Cell(tag, "\">"), TEXT_LAST]);
  }

  lemma TwoReadable()
    ensures Readable(Printed(Placeholder(2), Placeholder(1)), 2)
  {
    DecimalUnmarked(2);
    TwoCells(Decimal(2));
    forall k: nat
      ensures Decimal(k) != "\">"
    {
      NotNumeral(k, "\">");
    }
  }

  lemma {:induction false} NotNumeral(k: nat, t: string)
    requires t != "" && !IsDigit(t[0])
    ensures Decimal(k) != t
  {
    assert Decimal(k)[0] in Decimal(k);
  }

  lemma TwoFilled(a: string, b: string)
    ensures "<a href=\"" + FilledBody([Cell(Decimal(2), "\">"), TEXT_LAST], [a, b]) == Printed(Span(b), Span(a))
  {
    NumberOfDecimal(1);
    NumberOfDecimal(2);
    var cs := [Cell(Decimal(2), "\">"), TEXT_LAST];
    assert cs[1..] == [TEXT_LAST] && [TEXT_LAST][1..] == [];
    assert FilledBody([TEXT_LAST], [a, b]) == Span(a) + ("</a>" + "");
  }

  /** The output of a link with code on both sides has the second span before the first. */
  lemma CodeOnBothSidesSwaps(a: string, b: string)
    requires '`' !in a && '`' !in b && MARK !in a && MARK !in b
    ensures Inline(BothSides(a, b)) == Printed(Span(b), Span(a))
  {
    var s, m := BothSides(a, b), Printed(Placeholder(2), Placeholder(1));
    BothSidesFree(a, b);
    BothSidesMarkup(a, b);
    BothSidesCodes(a, b);
    TwoReadable();
    InlineRestoresIff(s);
    HeldOutFacts(s);
    MarkupKeepsEach(HeldOut(Split(s)));
    CellsSpell(m, [a, b]);
    DecimalUnmarked(2);
    TwoCells(Decimal(2));
    TwoFilled(a, b);
  }

  lemma BothSidesFree(a: string, b: string)
    requires MARK !in a && MARK !in b
    ensures MARK !in BothSides(a, b)
  {
  }

  // ----- a number between two spans of the target

  /** As above, with a second span in the target and the number 1 between the two. */
  function Numbered(a: string, b: string, c: string): string {
    "[" + ("`" + (a + ("`" + ("](" + ("`" + (b + ("`" + ("1" + ("`" + (c + ("`" + ")")))))))))))
  }

  lemma NumberedSplit(a: string, b: string, c: string)
    requires '`' !in a && '`' !in b && '`' !in c
    ensures Split(Numbered(a, b, c)) == ["[", a, "](", b, "1", c, ")"]
  {
    var s3 := b + ("`" + ("1" + ("`" + (c + ("`" + ")")))));
    var s2 := "](" + ("`" + s3);
    var s1 := a + ("`" + s2);
    TargetSplit(b, c);
    PiecesAtTick("](", s3);
    assert Pieces(s2) == ["](", b, "1", c, ")"];
    PiecesAtTick(a, s2);
    assert Pieces(s1) == [a, "](", b, "1", c, ")"];
    PiecesAtTick("[", s1);
  }

  lemma {:induction false} TargetSplit(b: string, c: string)
    requires '`' !in b && '`' !in c
    ensures Pieces(b + ("`" + ("1" + ("`" + (c + ("`" + ")")))))) == [b, "1", c, ")"]
  {
    var s5 := c + ("`" + ")");
    var s4 := "1" + ("`" + s5);
    LastPiece();
    PiecesAtTick(c, ")");
    assert Pieces(s5) == [c, ")"];
    PiecesAtTick("1", s5);
    assert Pieces(s4) == ["1", c, ")"];
    PiecesAtTick(b, s4);
  }

  lemma NumberedMarkup(a: string, b: string, c: string)
    requires '`' !in a && '`' !in b && '`' !in c
    ensures Markup(HeldOut(Split(Numbered(a, b, c))))
         == Printed(Placeholder(2) + ("1" + Placeholder(3)), Placeholder(1))
  {
    var target := Placeholder(2) + ("1" + Placeholder(3));
    NumberedSplit(a, b, c);
    HeldFive("[", a, "](", b, "1");
    HeldSeven(a, b, c);
    OnlyDigits(1);
    OnlyDigits(2);
    OnlyDigits(3);
    assert target[|target| - 1] == Placeholder(3)[|Placeholder(3)| - 1];
    assert forall x :: x in target ==> x == MARK || IsDigit(x);
    OneLinkMarkup(Placeholder(1), target);
  }

  lemma HeldSeven(a: string, b: string, c: string)
    ensures HeldOut(["[", a, "](", b, "1", c, ")"])
         == "[" + (Placeholder(1) + ("](" + ((Placeholder(2) + ("1" + Placeholder(3))) + ")")))
  {
    HeldFive("[", a, "](", b, "1");
    var five, six := ["[", a, "](", b, "1"], ["[", a, "](", b, "1", c];
    HoldSnoc(five, c);
    HoldSnoc(six, ")");
    assert five + [c] == six && six + [")"] == ["[", a, "](", b, "1", c, ")"];
    SevenParts(Placeholder(1), Placeholder(2), Placeholder(3));
  }

  lemma SevenParts(x: string, y: string, z: string)
    ensures "[" + (x + ("](" + (y + "1"))) + z + ")" == "[" + (x + ("](" + ((y + ("1" + z)) + ")")))
  {
  }

  lemma NumberedCodes(a: string, b: string, c: string)
    requires '`' !in a && '`' !in b && '`' !in c
    ensures CodesOf(Split(Numbered(a, b, c))) == [a, b, c]
  {
    NumberedSplit(a, b, c);
    CodesThree("[", a, "](");
    CodesMore(["[", a, "]("], b, "1", [a]);
    assert ["[", a, "]("] + [b, "1"] == ["[", a, "](", b, "1"] && [a] + [b] == [a, b];
    CodesMore(["[", a, "](", b, "1"], c, ")", [a, b]);
    assert ["[", a, "](", b, "1"] + [c, ")"] == ["[", a, "](", b, "1", c, ")"];
  }

  lemma {:induction false} CodesMore(parts: seq<string>, x: string, y: string, codes: seq<string>)
    requires |parts| % 2 == 1 && CodesOf(parts) == codes
    ensures CodesOf(parts + [x, y]) == codes + [x]
  {
    HoldSnoc(parts, x);
    HoldSnoc(parts + [x], y);
    assert parts + [x] + [y] == parts + [x, y];
  }

  /** The tag the two placeholders of the target have become. */
  function Broken(a: string): string {
    "2" + (Span(a) + "3")
  }

  /** The first search takes the number for placeholder 1. */
  lemma NumberTaken(a: string)
    requires MARK !in a
    ensures Replaced(Printed(Placeholder(2) + ("1" + Placeholder(3)), Placeholder(1)), Placeholder(1), Span(a))
         == Printed(Quote(Broken(a)), Placeholder(1))
  {
    var tail := "\">" + (Placeholder(1) + "</a>");
    assert Decimal(1) == "1" && Decimal(2) == "2" && Decimal(3) == "3";
    TagTaken("2", "1", "3", tail, Span(a));
    PrintedParts(Quote("2"), "1", Quote("3"), Placeholder(1));
    assert "2" + (Span(a) + "3") == Broken(a);
  }

  lemma PrintedParts(x: string, y: string, z: string, text: string)
    ensures Printed(x + (y + z), text) == "<a href=\"" + (x + (y + (z + ("\">" + (text + "</a>")))))
  {
  }

  lemma {:induction false} TagTaken(x: string, d: string, y: string, tail: string, r: string)
    requires MARK !in x && MARK !in d && x != d
    ensures Replaced("<a href=\"" + (Quote(x) + (d + (Quote(y) + tail))), Quote(d), r)
         == "<a href=\"" + (Quote(x + (r + y)) + tail)
  {
    SkipTag("<a href=\"", x, d + (Quote(y) + tail), d, r);
    MarksMeet(d, y, tail);
    ReplacedHere(Quote(d), y + ([MARK] + tail), r);
    Joined(x, r, y, tail);
  }

  lemma MarksMeet(d: string, y: string, tail: string)
    ensures [MARK] + (d + (Quote(y) + tail)) == Quote(d) + (y + ([MARK] + tail))
  {
  }

  lemma Joined(x: string, r: string, y: string, tail: string)
    ensures [MARK] + (x + (r + (y + ([MARK] + tail)))) == Quote(x + (r + y)) + tail
  {
  }

  /** The two spans of the target are lost, marks are left in the output, and the span of the
      text stands in the target. */
  lemma NumberBetweenSpansBreaks(a: string, b: string, c: string)
    requires '`' !in a && '`' !in b && '`' !in c && MARK !in a && MARK !in b && MARK !in c
    ensures Inline(Numbered(a, b, c)) == Printed(Quote("2" + (Span(a) + "3")), Placeholder(1))
  {
    var m, codes := Printed(Placeholder(2) + ("1" + Placeholder(3)), Placeholder(1)), [a, b, c];
    NumberedMarkup(a, b, c);
    NumberedCodes(a, b, c);
    RestoreReplaces(m, codes, 1);
    NumberTaken(a);
    var broken := Printed(Quote(Broken(a)), Placeholder(1));
    NothingLeft(a, codes, 2);
    NothingLeft(a, codes, 3);
    assert RestoreFrom(m, codes, 1) == RestoreFrom(broken, codes, 2);
    assert RestoreFrom(broken, codes, 2) == RestoreFrom(broken, codes, 3);
    assert RestoreFrom(broken, codes, 3) == RestoreFrom(broken, codes, 4) == broken;
  }

  lemma NothingLeft(a: string, codes: seq<string>, k: nat)
    requires MARK !in a && 2 <= k <= |codes|
    ensures RestoreOne(Printed(Quote(Broken(a)), Placeholder(1)), codes, k) == Printed(Quote(Broken(a)), Placeholder(1))
  {
    RestoreReplaces(Printed(Quote(Broken(a)), Placeholder(1)), codes, k);
    NotFoundIn(a, k, Span(codes[k - 1]));
  }

  lemma BrokenFree(a: string)
    requires MARK !in a
    ensures MARK !in Broken(a)
  {
    SpanFree(a);
  }

  lemma {:induction false} NotFoundIn(a: string, k: nat, r: string)
    requires MARK !in a && k > 1
    ensures Replaced(Printed(Quote(Broken(a)), Placeholder(1)), Placeholder(k), r)
         == Printed(Quote(Broken(a)), Placeholder(1))
  {
    BrokenFree(a);
    TwoCells(Broken(a));
    DecimalUnmarked(k);
    DecimalUnmarked(1);
    NumeralsOnly(k, a);
    NotFound("<a href=\"", [Cell(Broken(a), "\">"), TEXT_LAST], Decimal(k), r);
  }

  lemma {:induction false} NumeralsOnly(k: nat, a: string)
    requires k > 1
    ensures Decimal(k) != Broken(a) && Decimal(k) != "\">" && Decimal(k) != "</a>" && Decimal(k) != Decimal(1)
  {
    assert Broken(a)[1] == '<';
    assert |Decimal(k)| > 1 ==> Decimal(k)[1] in Decimal(k);
    NotNumeral(k, "\">");
    NotNumeral(k, "</a>");
    OtherNumeral(1, k);
  }
}
