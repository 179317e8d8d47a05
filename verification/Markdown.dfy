/** scripts/docs.sh, inline markup: code spans are held out as numbered placeholders, the
    markup passes run over what is left, and the spans are put back one by one. */
module Markdown {
  import opened Strings

  /** The placeholder delimiter, \002. */
  const MARK: char := '\U{0002}'

  predicate IsDigit(c: char) {
    '0' <= c <= '9'
  }

  function Placeholder(k: nat): string {
    [MARK] + Decimal(k) + [MARK]
  }

  // ----- holding the code spans out

  /** split(s, parts, "`") of a string that is not empty. */
  function Pieces(s: string): (r: seq<string>)
    ensures |r| >= 1
  {
    if s == "" then [""]
    else
      var r := Pieces(s[1..]);
      if s[0] == '`' then [""] + r else [[s[0]] + r[0]] + r[1..]
  }

  function Split(s: string): seq<string> {
    if s == "" then [] else Pieces(s)
  }

  /** The text with every second part replaced by its placeholder. */
  function HeldOut(parts: seq<string>): string {
    if parts == [] then ""
    else HeldOut(parts[..|parts| - 1]) + Held(|parts|, parts[|parts| - 1])
  }

  /** The n-th part: every second one is code and leaves a placeholder behind. */
  function Held(n: nat, part: string): string {
    if n % 2 == 0 then Placeholder(n / 2) else part
  }

  function CodesOf(parts: seq<string>): (r: seq<string>)
    ensures |r| == |parts| / 2
  {
    if parts == [] then []
    else
      var before := CodesOf(parts[..|parts| - 1]);
      if |parts| % 2 == 0 then before + [parts[|parts| - 1]] else before
  }

  // ----- the passes

  /** The first position from p on that holds c, or the length. */
  function NextAt(s: string, c: char, p: nat): (q: nat)
    requires p <= |s|
    ensures p <= q <= |s|
    ensures q < |s| ==> s[q] == c
    decreases |s| - p
  {
    if p == |s| || s[p] == c then p else NextAt(s, c, p + 1)
  }

  /** The first position from p on where the pattern matches, or the length. */
  function First(s: string, at: (string, nat) -> bool, p: nat): (q: nat)
    requires p <= |s|
    ensures p <= q <= |s|
    ensures q < |s| ==> at(s, q)
    decreases |s| - p
  {
    if p == |s| || at(s, p) then p else First(s, at, p + 1)
  }

  /** `\*\*[^*]+\*\*` matches at p. */
  predicate BoldAt(s: string, p: nat) {
    p + 2 <= |s| && s[p] == '*' && s[p + 1] == '*'
    && var q := NextAt(s, '*', p + 2); q > p + 2 && q + 1 < |s| && s[q + 1] == '*'
  }

  /** `\*[^ \t*][^*]*\*` matches at p. */
  predicate EmAt(s: string, p: nat) {
    p + 2 <= |s| && s[p] == '*' && s[p + 1] != ' ' && s[p + 1] != '\t' && s[p + 1] != '*'
    && NextAt(s, '*', p + 2) < |s|
  }

  /** `\[[^]]*\]\([^)]*\)` matches at p. */
  predicate LinkAt(s: string, p: nat) {
    p < |s| && s[p] == '['
    && var q := NextAt(s, ']', p + 1); q + 1 < |s| && s[q + 1] == '(' && NextAt(s, ')', q + 2) < |s|
  }

  function Stars(s: string): nat {
    if s == "" then 0 else (if s[0] == '*' then 1 else 0) + Stars(s[1..])
  }

  lemma {:induction false} StarsAppend(a: string, b: string)
    ensures Stars(a + b) == Stars(a) + Stars(b)
  {
    if a == "" {
      assert a + b == b;
    } else {
      assert (a + b)[1..] == a[1..] + b;
      StarsAppend(a[1..], b);
    }
  }

  /** Five pieces in a row, the shape of every replacement. */
  function Row(a: string, x: string, m: string, y: string, b: string): string {
    a + (x + (m + (y + b)))
  }

  function BoldStep(s: string, p: nat): string
    requires BoldAt(s, p)
  {
    var q := NextAt(s, '*', p + 2);
    Row(s[..p], "<strong>", s[p + 2..q], "</strong>", s[q + 2..])
  }

  function EmStep(s: string, p: nat): string
    requires EmAt(s, p)
  {
    var q := NextAt(s, '*', p + 2);
    Row(s[..p], "<em>", s[p + 1..q], "</em>", s[q + 1..])
  }

  lemma {:induction false} StarsOfRow(a: string, x: string, m: string, y: string, b: string)
    ensures Stars(Row(a, x, m, y, b)) == Stars(a) + Stars(x) + Stars(m) + Stars(y) + Stars(b)
  {
    StarsAppend(y, b);
    StarsAppend(m, y + b);
    StarsAppend(x, m + (y + b));
    StarsAppend(a, x + (m + (y + b)));
  }

  lemma FiveSlices(s: string, i: nat, j: nat, k: nat, l: nat)
    requires i <= j <= k <= l <= |s|
    ensures s == Row(s[..i], s[i..j], s[j..k], s[k..l], s[l..])
  {
    assert s[k..] == s[k..l] + s[l..];
    assert s[j..] == s[j..k] + s[k..];
    assert s[i..] == s[i..j] + s[j..];
    assert s == s[..i] + s[i..];
  }

  lemma TwoStars(s: string, i: nat)
    requires i + 1 < |s| && s[i] == '*' && s[i + 1] == '*'
    ensures s[i..i + 2] == "**"
  {
  }

  /** The string around a bold match, before and after the replacement. */
  lemma BoldShape(s: string, p: nat) returns (a: string, m: string, b: string)
    requires BoldAt(s, p)
    ensures s == Row(a, "**", m, "**", b) && BoldStep(s, p) == Row(a, "<strong>", m, "</strong>", b)
  {
    var q := NextAt(s, '*', p + 2);
    a, m, b := s[..p], s[p + 2..q], s[q + 2..];
    BoldSource(s, p, q);
  }

  lemma BoldSource(s: string, p: nat, q: nat)
    requires p + 2 <= q && q + 2 <= |s|
    requires s[p] == '*' && s[p + 1] == '*' && s[q] == '*' && s[q + 1] == '*'
    ensures s == Row(s[..p], "**", s[p + 2..q], "**", s[q + 2..])
  {
    TwoStars(s, p);
    TwoStars(s, q);
    FiveSlices(s, p, p + 2, q, q + 2);
  }

  lemma EmShape(s: string, p: nat) returns (a: string, m: string, b: string)
    requires EmAt(s, p)
    ensures s == Row(a, "*", m, "*", b) && EmStep(s, p) == Row(a, "<em>", m, "</em>", b)
  {
    var q := NextAt(s, '*', p + 2);
    a, m, b := s[..p], s[p + 1..q], s[q + 1..];
    assert s[p..p + 1] == "*" && s[q..q + 1] == "*";
    FiveSlices(s, p, p + 1, q, q + 1);
  }

  lemma {:induction false} NoStars(s: string)
    ensures '*' !in s ==> Stars(s) == 0
  {
    if s != "" {
      NoStars(s[1..]);
    }
  }

  lemma StrongStars()
    ensures Stars("<strong>") == 0 && Stars("</strong>") == 0
  {
    NoStars("<strong>");
    NoStars("</strong>");
  }

  lemma TagStars()
    ensures Stars("<strong>") == 0 && Stars("</strong>") == 0 && Stars("<em>") == 0 && Stars("</em>") == 0
    ensures Stars("*") == 1 && Stars("**") == 2
  {
    StrongStars();
    NoStars("<em>");
    NoStars("</em>");
    assert "**"[1..] == "*" && "*"[1..] == "";
  }

  /** Why the loops stop: a replacement takes four stars away ... */
  lemma {:induction false} BoldDrops(s: string, p: nat)
    requires BoldAt(s, p)
    ensures Stars(BoldStep(s, p)) + 4 == Stars(s)
  {
    var a, m, b := BoldShape(s, p);
    TagStars();
    StarsOfRow(a, "**", m, "**", b);
    StarsOfRow(a, "<strong>", m, "</strong>", b);
  }

  /** ... or two. */
  lemma {:induction false} EmDrops(s: string, p: nat)
    requires EmAt(s, p)
    ensures Stars(EmStep(s, p)) + 2 == Stars(s)
  {
    var a, m, b := EmShape(s, p);
    TagStars();
    StarsOfRow(a, "*", m, "*", b);
    StarsOfRow(a, "<em>", m, "</em>", b);
  }

  function Em(s: string): string
    decreases Stars(s)
  {
    var p := First(s, EmAt, 0);
    if p == |s| then s
    else
      EmDrops(s, p);
      Em(EmStep(s, p))
  }

  function Bold(s: string): string
    decreases Stars(s)
  {
    var p := First(s, BoldAt, 0);
    if p == |s| then Em(s)
    else
      BoldDrops(s, p);
      Bold(BoldStep(s, p))
  }

  method EmPass(s: string) returns (r: string)
    ensures r == Em(s)
  {
    r := s;
    var p := First(r, EmAt, 0);
    while p < |r|
      invariant p == First(r, EmAt, 0)
      invariant Em(r) == Em(s)
      decreases Stars(r)
    {
      EmDrops(r, p);
      r := EmStep(r, p);
      p := First(r, EmAt, 0);
    }
  }

  method BoldPass(s: string) returns (r: string)
    ensures r == Bold(s)
  {
    r := s;
    var p := First(r, BoldAt, 0);
    while p < |r|
      invariant p == First(r, BoldAt, 0)
      invariant Bold(r) == Bold(s)
      decreases Stars(r)
    {
      BoldDrops(r, p);
      r := BoldStep(r, p);
      p := First(r, BoldAt, 0);
    }
    r := EmPass(r);
  }

  const REPO := "https://github.com/" + ("Allan-Nava/" + ("galera-doctor/" + "blob/main/"))

  /** `^[a-z]+:` */
  predicate Absolute(t: string) {
    var n := Letters(t); n > 0 && n < |t| && t[n] == ':'
  }

  function Letters(t: string): (n: nat)
    ensures n <= |t|
  {
    if t != "" && 'a' <= t[0] <= 'z' then 1 + Letters(t[1..]) else 0
  }

  /** A target up to its anchor. */
  function Page(t: string): string {
    if "../" <= t then REPO + t[3..]
    else if |t| >= 3 && t[|t| - 3..] == ".md" then t[..|t| - 3] + ".html"
    else t
  }

  function Href(t: string): string {
    if Absolute(t) || "#" <= t || "//" <= t then t
    else
      var h := NextAt(t, '#', 0);
      Page(t[..h]) + t[h..]
  }

  /** The parts of the first link of s, which matches at p. */
  function LinkText(s: string, p: nat): string
    requires LinkAt(s, p)
  {
    s[p + 1..NextAt(s, ']', p + 1)]
  }

  function LinkTarget(s: string, p: nat): string
    requires LinkAt(s, p)
  {
    var q := NextAt(s, ']', p + 1);
    s[q + 2..NextAt(s, ')', q + 2)]
  }

  function AfterLink(s: string, p: nat): (r: string)
    requires LinkAt(s, p)
    ensures |r| < |s|
  {
    var q := NextAt(s, ']', p + 1);
    s[NextAt(s, ')', q + 2) + 1..]
  }

  function Anchor(s: string, p: nat): string
    requires LinkAt(s, p)
  {
    Row("<a href=\"", Href(LinkTarget(s, p)), "\">", Bold(LinkText(s, p)), "</a>")
  }

  function Markup(s: string): string
    decreases |s|
  {
    var p := First(s, LinkAt, 0);
    if p == |s| then Bold(s) else Bold(s[..p]) + (Anchor(s, p) + Markup(AfterLink(s, p)))
  }

  lemma Regroup(a: string, b: string, c: string, d: string)
    ensures a + (b + (c + d)) == (a + b + c) + d
  {
  }

  method MarkupPass(s: string) returns (r: string)
    ensures r == Markup(s)
  {
    r := "";
    var left := s;
    var p := First(left, LinkAt, 0);
    while p < |left|
      invariant p == First(left, LinkAt, 0)
      invariant r + Markup(left) == Markup(s)
      decreases |left|
    {
      var pre := BoldPass(left[..p]);
      var text := BoldPass(LinkText(left, p));
      ghost var rest := Markup(AfterLink(left, p));
      var link := Row("<a href=\"", Href(LinkTarget(left, p)), "\">", text, "</a>");
      Regroup(r, pre, link, rest);
      r := r + pre + link;
      left := AfterLink(left, p);
      p := First(left, LinkAt, 0);
    }
    var last := BoldPass(left);
    r := r + last;
  }

  // ----- putting the spans back

  function RestoreOne(out: string, codes: seq<string>, i: nat): string
    requires 1 <= i <= |codes|
  {
    var pos := Index(out, Placeholder(i));
    IndexMeaning(out, Placeholder(i));
    if pos > 0 then out[..pos - 1] + ("<code>" + codes[i - 1] + "</code>") + out[pos - 1 + |Placeholder(i)|..] else out
  }

  function RestoreFrom(out: string, codes: seq<string>, i: nat): string
    requires i >= 1
    decreases |codes| + 1 - i
  {
    if i > |codes| then out else RestoreFrom(RestoreOne(out, codes, i), codes, i + 1)
  }

  function Inline(s: string): string {
    var parts := Split(s);
    RestoreFrom(Markup(HeldOut(parts)), CodesOf(parts), 1)
  }

  method InlinePass(s: string) returns (out: string)
    ensures out == Inline(s)
  {
    var parts := Split(s);
    var code;
    out, code := HoldOut(parts);
    out := MarkupPass(out);
    out := RestoreAll(out, code);
  }

  lemma {:induction false} HoldSnoc(parts: seq<string>, x: string)
    ensures HeldOut(parts + [x]) == HeldOut(parts) + Held(|parts + [x]|, x)
    ensures CodesOf(parts + [x]) == CodesOf(parts) + if |parts + [x]| % 2 == 0 then [x] else []
  {
    var q := parts + [x];
    assert q[..|q| - 1] == parts && q[|q| - 1] == x;
  }

  /** An odd number of parts so far: the next one is code. */
  lemma {:induction false} HoldNext(parts: seq<string>, x: string)
    ensures |parts| % 2 == 1 ==>
              && HeldOut(parts + [x]) == HeldOut(parts) + Placeholder(|CodesOf(parts) + [x]|)
              && CodesOf(parts + [x]) == CodesOf(parts) + [x]
    ensures |parts| % 2 == 0 ==> HeldOut(parts + [x]) == HeldOut(parts) + x && CodesOf(parts + [x]) == CodesOf(parts)
  {
    HoldSnoc(parts, x);
    assert |parts| % 2 == 1 ==> |parts + [x]| / 2 == |parts| / 2 + 1;
  }

  method HoldOut(parts: seq<string>) returns (out: string, code: seq<string>)
    ensures out == HeldOut(parts) && code == CodesOf(parts)
  {
    out, code := "", [];
    for i := 0 to |parts|
      invariant out == HeldOut(parts[..i]) && code == CodesOf(parts[..i])
    {
      assert parts[..i + 1] == parts[..i] + [parts[i]];
      HoldNext(parts[..i], parts[i]);
      if i % 2 == 1 {
        code := code + [parts[i]];
        out := out + Placeholder(|code|);
      } else {
        out := out + parts[i];
      }
    }
    assert parts[..|parts|] == parts;
  }

  method RestoreAll(s: string, code: seq<string>) returns (out: string)
    ensures out == RestoreFrom(s, code, 1)
  {
    out := s;
    var i := 1;
    while i <= |code|
      invariant 1 <= i <= |code| + 1
      invariant RestoreFrom(out, code, i) == RestoreFrom(s, code, 1)
    {
      out := RestoreOne(out, code, i);
      i := i + 1;
    }
  }
}
