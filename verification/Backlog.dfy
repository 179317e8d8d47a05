/** scripts/backlog.sh issues: deciding what the issue tracker needs, and doing it. */
module Backlog {
  import opened Strings
  import opened Sorting
  import opened Findings

  /** One backlog item; anything but the status "open" counts as shipped. */
  datatype Item = Item(msid: string, id: string, isOpen: bool, title: string)

  datatype Issue = Issue(title: string, isOpen: bool)

  datatype Action =
    | Create(id: string)
    | Reopen(id: string, num: nat)
    | Close(id: string, num: nat)
    | Retitle(id: string, num: nat)
    | Fine(id: string, num: nat)
    | Skip(id: string)

  const DASH := " \U{2014} "

  /** The listing asks for this many issues, newest first. */
  const LIMIT := 500

  predicate IsId(s: string) {
    |s| > 3 && s[..3] == "GD-" && forall i :: 3 <= i < |s| ==> '0' <= s[i] <= '9'
  }

  /** The id is the title up to the dash, when that looks like an id. */
  function IdOf(title: string): Option<string> {
    var dash := Index(title, DASH);
    IndexMeaning(title, DASH);
    var id := if dash > 0 then title[..dash - 1] else title;
    if IsId(id) then Some(id) else None
  }

  function TitleOf(item: Item): string {
    item.id + DASH + item.title
  }

  lemma IdOfTitle(item: Item)
    requires IsId(item.id)
    ensures IdOf(TitleOf(item)) == Some(item.id)
  {
    var t := TitleOf(item);
    IndexMeaning(t, DASH);
    assert t[|item.id|..|item.id| + |DASH|] == DASH;
    assert OccursAt(t, DASH, |item.id|);
    forall p | 0 <= p < |item.id|
      ensures !OccursAt(t, DASH, p)
    {
      assert t[p] == item.id[p];
      assert p < 3 ==> item.id[p] == "GD-"[p];
      OccursHead(t, DASH, p);
    }
    assert t[..|item.id|] == item.id;
  }

  // ----- what exists

  /** The first issue from `from` on that carries the id. */
  function Oldest(gh: seq<Issue>, id: string, from: nat): (r: Option<nat>)
    ensures r.Some? ==> from <= r.value < |gh| && IdOf(gh[r.value].title) == Some(id)
    ensures forall i :: from <= i < |gh| && IdOf(gh[i].title) == Some(id) ==> r.Some? && r.value <= i
    decreases |gh| - from
  {
    if from >= |gh| then None
    else if IdOf(gh[from].title) == Some(id) then Some(from)
    else Oldest(gh, id, from + 1)
  }

  /** The oldest issue number the listing still shows. */
  function Shown(gh: seq<Issue>): nat {
    Hidden(|gh|)
  }

  /** How many of n issues a listing leaves out. */
  function Hidden(n: nat): nat {
    if n <= LIMIT then 0 else n - LIMIT
  }

  /** The issue that stands for an id: the oldest one shown. */
  function Own(gh: seq<Issue>, id: string): Option<nat> {
    Oldest(gh, id, Shown(gh))
  }

  datatype Existing = Existing(num: nat, isOpen: bool, title: string)

  /** ex holds what the records from n on say. */
  ghost predicate ReadFrom(ex: map<string, Existing>, gh: seq<Issue>, n: nat) {
    && (forall id :: id in ex <==> Oldest(gh, id, n).Some?)
    && (forall id :: id in ex ==> ex[id] == Recorded(gh, Oldest(gh, id, n).value))
  }

  /** Reads the listing record by record, newest first; a later record overwrites an earlier one. */
  method ReadExisting(gh: seq<Issue>) returns (ex: map<string, Existing>)
    ensures ReadFrom(ex, gh, Shown(gh))
  {
    ex := map[];
    var n := |gh|;
    NothingRead(gh);
    while n > Shown(gh)
      invariant Shown(gh) <= n <= |gh|
      invariant ReadFrom(ex, gh, n)
    {
      n := n - 1;
      ReadRecord(ex, gh, n);
      var id := IdOf(gh[n].title);
      if id.Some? {
        ex := ex[id.value := Recorded(gh, n)];
      }
    }
  }

  lemma NothingRead(gh: seq<Issue>)
    ensures ReadFrom(map[], gh, |gh|)
  {
  }

  lemma ReadRecord(ex: map<string, Existing>, gh: seq<Issue>, n: nat)
    requires n < |gh| && ReadFrom(ex, gh, n + 1)
    ensures var id := IdOf(gh[n].title);
            ReadFrom(if id.Some? then ex[id.value := Recorded(gh, n)] else ex, gh, n)
  {
    OldestStep(gh, n);
  }

  lemma {:induction false} OldestStep(gh: seq<Issue>, n: nat)
    requires n < |gh|
    ensures forall id :: Oldest(gh, id, n) == if IdOf(gh[n].title) == Some(id) then Some(n) else Oldest(gh, id, n + 1)
  {
  }

  function Recorded(gh: seq<Issue>, n: nat): Existing
    requires n < |gh|
  {
    Existing(n, gh[n].isOpen, gh[n].title)
  }

  // ----- the plan

  /** An empty filter wants every milestone. */
  predicate Wanted(item: Item, want: set<string>) {
    want == {} || item.msid in want
  }

  /** The lines for one item, given the issue that stands for it. */
  function Decide(item: Item, found: Option<Existing>): seq<Action> {
    if found.None? then (if item.isOpen then [Create(item.id)] else [Skip(item.id)])
    else
      (if found.value.title != TitleOf(item) then [Retitle(item.id, found.value.num)] else [])
      + if item.isOpen
        then (if found.value.isOpen then [Fine(item.id, found.value.num)] else [Reopen(item.id, found.value.num)])
        else if found.value.isOpen then [Close(item.id, found.value.num)] else [Fine(item.id, found.value.num)]
  }

  function FoundIn(gh: seq<Issue>, id: string): Option<Existing> {
    var n := Oldest(gh, id, Shown(gh));
    if n.None? then None else Some(Recorded(gh, n.value))
  }

  function Plan(items: seq<Item>, want: set<string>, gh: seq<Issue>): seq<Action> {
    if items == [] then []
    else Plan(items[..|items| - 1], want, gh)
         + if Wanted(items[|items| - 1], want)
           then Decide(items[|items| - 1], FoundIn(gh, items[|items| - 1].id)) else []
  }

  method PlanIssues(items: seq<Item>, want: set<string>, gh: seq<Issue>) returns (plan: seq<Action>)
    ensures plan == Plan(items, want, gh)
  {
    var ex := ReadExisting(gh);
    plan := [];
    for i := 0 to |items|
      invariant plan == Plan(items[..i], want, gh)
    {
      assert items[..i + 1][..i] == items[..i];
      var item := items[i];
      if want != {} && item.msid !in want {
        continue;
      }
      var found := if item.id in ex then Some(ex[item.id]) else None;
      assert found == FoundIn(gh, item.id);
      var lines := DecideItem(item, found);
      plan := plan + lines;
    }
    assert items[..|items|] == items;
  }

  method DecideItem(item: Item, found: Option<Existing>) returns (lines: seq<Action>)
    ensures lines == Decide(item, found)
  {
    lines := [];
    if found.Some? && found.value.title != TitleOf(item) {
      lines := lines + [Retitle(item.id, found.value.num)];
    }
    if item.isOpen {
      if found.None? {
        lines := lines + [Create(item.id)];
      } else if !found.value.isOpen {
        lines := lines + [Reopen(item.id, found.value.num)];
      } else {
        lines := lines + [Fine(item.id, found.value.num)];
      }
    } else {
      if found.None? {
        lines := lines + [Skip(item.id)];
      } else if found.value.isOpen {
        lines := lines + [Close(item.id, found.value.num)];
      } else {
        lines := lines + [Fine(item.id, found.value.num)];
      }
    }
  }

  // ----- applying it

  /** The title the metadata of an item gives: the first item under that id. */
  function MetaTitle(items: seq<Item>, id: string): string {
    if items == [] then "" else if items[0].id == id then TitleOf(items[0]) else MetaTitle(items[1..], id)
  }

  function ApplyOne(items: seq<Item>, gh: seq<Issue>, a: Action): seq<Issue> {
    match a
    case Create(id) => gh + [Issue(MetaTitle(items, id), true)]
    case Retitle(id, num) => if num < |gh| then gh[num := gh[num].(title := MetaTitle(items, id))] else gh
    case Close(_, num) => if num < |gh| then gh[num := gh[num].(isOpen := false)] else gh
    case Reopen(_, num) => if num < |gh| then gh[num := gh[num].(isOpen := true)] else gh
    case Fine(_, _) => gh
    case Skip(_) => gh
  }

  function ApplyAll(items: seq<Item>, gh: seq<Issue>, plan: seq<Action>): seq<Issue> {
    if plan == [] then gh else ApplyOne(items, ApplyAll(items, gh, plan[..|plan| - 1]), plan[|plan| - 1])
  }

  /** The issue an action is about: the next one for a creation, none when nothing is to do. */
  function Subject(gh: seq<Issue>, a: Action): Option<nat> {
    match a
    case Create(_) => Some(|gh|)
    case Retitle(_, num) => Some(num)
    case Close(_, num) => Some(num)
    case Reopen(_, num) => Some(num)
    case Fine(_, _) => None
    case Skip(_) => None
  }

  /** One action touches the one issue it is about, and there either the title or the state. */
  lemma OneActionOneIssue(items: seq<Item>, gh: seq<Issue>, a: Action)
    ensures var gh' := ApplyOne(items, gh, a);
            && |gh'| == |gh| + (if a.Create? then 1 else 0)
            && (forall i :: 0 <= i < |gh| && Subject(gh, a) != Some(i) ==> gh'[i] == gh[i])
            && (forall i :: 0 <= i < |gh| ==> gh'[i].title == gh[i].title || gh'[i].isOpen == gh[i].isOpen)
            && (forall i :: 0 <= i < |gh| && gh'[i].isOpen != gh[i].isOpen ==> gh'[i].isOpen == a.Reopen?)
  {
  }

  /** The issue tracker; an issue's number is its place in the order of creation. */
  class Tracker {
    var issues: seq<Issue>

    constructor (issues: seq<Issue>)
      ensures this.issues == issues
    {
      this.issues := issues;
    }

    method Execute(items: seq<Item>, a: Action)
      modifies this
      ensures issues == ApplyOne(items, old(issues), a)
    {
      match a
      case Create(id) =>
        issues := issues + [Issue(MetaTitle(items, id), true)];
      case Retitle(id, num) =>
        if num < |issues| {
          issues := issues[num := issues[num].(title := MetaTitle(items, id))];
        }
      case Close(_, num) =>
        if num < |issues| {
          issues := issues[num := issues[num].(isOpen := false)];
        }
      case Reopen(_, num) =>
        if num < |issues| {
          issues := issues[num := issues[num].(isOpen := true)];
        }
      case Fine(_, _) =>
      case Skip(_) =>
    }

    /** `issues --apply`: plan from the listing, then execute the plan line by line. */
    method Sync(items: seq<Item>, want: set<string>) returns (plan: seq<Action>)
      modifies this
      ensures plan == Plan(items, want, old(issues))
      ensures issues == ApplyAll(items, old(issues), plan)
    {
      plan := PlanIssues(items, want, issues);
      for i := 0 to |plan|
        invariant issues == ApplyAll(items, old(issues), plan[..i])
      {
        assert plan[..i + 1][..i] == plan[..i];
        Execute(items, plan[i]);
      }
      assert plan[..|plan|] == plan;
    }
  }

  // ----- convergence and safety

  ghost predicate UniqueItems(items: seq<Item>) {
    && (forall i, j :: 0 <= i < j < |items| ==> items[i].id != items[j].id)
    && (forall it :: it in items ==> IsId(it.id))
  }

  lemma {:induction false} MetaTitleOf(items: seq<Item>, item: Item)
    requires UniqueItems(items) && item in items
    ensures MetaTitle(items, item.id) == TitleOf(item)
  {
    if items[0] != item {
      var i :| 0 <= i < |items| && items[i] == item;
      assert items[0].id != item.id;
      assert item == items[1..][i - 1];
      MetaTitleOf(items[1..], item);
    }
  }

  /** gh after the lines of the items handled so far, gh0 being the tracker they were planned
      from: the issue that stands for a handled item is what the item says, every other issue
      is untouched, and each open item without one has exactly one new issue. */
  ghost predicate Synced(gh0: seq<Issue>, gh: seq<Issue>, handled: seq<Item>) {
    SameIds(gh0, gh) && Standing(gh0, gh, handled) && Untouched(gh0, gh, handled) && NewIssues(gh0, gh, handled)
  }

  ghost predicate SameIds(gh0: seq<Issue>, gh: seq<Issue>) {
    |gh0| <= |gh| && forall i :: 0 <= i < |gh0| ==> IdOf(gh[i].title) == IdOf(gh0[i].title)
  }

  ghost predicate Standing(gh0: seq<Issue>, gh: seq<Issue>, handled: seq<Item>)
    requires |gh0| <= |gh|
  {
    forall it :: it in handled && Own(gh0, it.id).Some? ==>
      gh[Own(gh0, it.id).value] == Issue(TitleOf(it), it.isOpen)
  }

  ghost predicate Untouched(gh0: seq<Issue>, gh: seq<Issue>, handled: seq<Item>)
    requires |gh0| <= |gh|
  {
    forall i :: 0 <= i < |gh0| && (forall it :: it in handled ==> Own(gh0, it.id) != Some(i)) ==> gh[i] == gh0[i]
  }

  ghost predicate NewIssues(gh0: seq<Issue>, gh: seq<Issue>, handled: seq<Item>)
    requires |gh0| <= |gh|
  {
    && (forall i :: |gh0| <= i < |gh| ==> Made(gh0, gh[i], handled))
    && Provided(gh0, gh, handled)
    && DistinctFrom(gh, |gh0|)
  }

  ghost predicate Provided(gh0: seq<Issue>, gh: seq<Issue>, handled: seq<Item>)
    requires |gh0| <= |gh|
  {
    forall it :: it in handled && it.isOpen && Own(gh0, it.id).None? ==> Issue(TitleOf(it), true) in gh[|gh0|..]
  }

  ghost predicate DistinctFrom(gh: seq<Issue>, from: nat) {
    forall i, j :: from <= i < j < |gh| ==> IdOf(gh[i].title) != IdOf(gh[j].title)
  }

  /** The issue was created for one of the items, which is open and had none. */
  ghost predicate Made(gh0: seq<Issue>, issue: Issue, handled: seq<Item>) {
    exists it :: it in handled && it.isOpen && Own(gh0, it.id).None? && issue == Issue(TitleOf(it), true)
  }

  lemma {:induction false} ApplyAppend(items: seq<Item>, gh: seq<Issue>, a: seq<Action>, b: seq<Action>)
    ensures ApplyAll(items, gh, a + b) == ApplyAll(items, ApplyAll(items, gh, a), b)
    decreases |b|
  {
    if b == [] {
      assert a + b == a;
    } else {
      assert (a + b)[..|a + b| - 1] == a + b[..|b| - 1];
      ApplyAppend(items, gh, a, b[..|b| - 1]);
    }
  }

  /** The items a filter lets through. */
  function WantedOf(items: seq<Item>, want: set<string>): seq<Item> {
    if items == [] then []
    else
      var before := WantedOf(items[..|items| - 1], want);
      if Wanted(items[|items| - 1], want) then before + [items[|items| - 1]] else before
  }

  lemma {:induction false} WantedMembers(items: seq<Item>, want: set<string>)
    ensures forall it :: it in WantedOf(items, want) <==> it in items && Wanted(it, want)
  {
    if items != [] {
      WantedMembers(items[..|items| - 1], want);
      assert items == items[..|items| - 1] + [items[|items| - 1]];
    }
  }

  /** The standing issue of an item nobody else stands on. */
  lemma OwnIssue(gh0: seq<Issue>, gh: seq<Issue>, handled: seq<Item>, item: Item)
    requires Synced(gh0, gh, handled) && forall it :: it in handled ==> it.id != item.id
    ensures Own(gh0, item.id).Some? ==> gh[Own(gh0, item.id).value] == gh0[Own(gh0, item.id).value]
  {
  }

  lemma {:induction false} SettleExisting(items: seq<Item>, gh0: seq<Issue>, gh: seq<Issue>, handled: seq<Item>,
                                          item: Item, n: nat)
    requires UniqueItems(items) && item in items
    requires Synced(gh0, gh, handled) && forall it :: it in handled ==> it.id != item.id
    requires Own(gh0, item.id) == Some(n)
    ensures ApplyAll(items, gh, Decide(item, FoundIn(gh0, item.id))) == gh[n := Issue(TitleOf(item), item.isOpen)]
  {
    OwnIssue(gh0, gh, handled, item);
    MetaTitleOf(items, item);
    assert FoundIn(gh0, item.id) == Some(Recorded(gh0, n));
    SettleLines(items, gh, item, n);
  }

  /** The lines for an item with an issue leave that issue as the item says. */
  lemma {:induction false} SettleLines(items: seq<Item>, gh: seq<Issue>, item: Item, n: nat)
    requires n < |gh| && MetaTitle(items, item.id) == TitleOf(item)
    ensures ApplyAll(items, gh, Decide(item, Some(Recorded(gh, n)))) == gh[n := Issue(TitleOf(item), item.isOpen)]
  {
    var found := Recorded(gh, n);
    var title := if found.title != TitleOf(item) then [Retitle(item.id, n)] else [];
    var last := if item.isOpen then (if found.isOpen then Fine(item.id, n) else Reopen(item.id, n))
                else if found.isOpen then Close(item.id, n) else Fine(item.id, n);
    assert Decide(item, Some(found)) == title + [last];
    ApplyAppend(items, gh, title, [last]);
    ApplySingle(items, gh, Retitle(item.id, n));
    var gh1 := gh[n := Issue(TitleOf(item), found.isOpen)];
    assert ApplyAll(items, gh, title) == gh1;
    ApplySingle(items, gh1, last);
  }

  lemma {:induction false} ApplySingle(items: seq<Item>, gh: seq<Issue>, a: Action)
    ensures ApplyAll(items, gh, [a]) == ApplyOne(items, gh, a)
  {
    assert [a][..0] == [];
    assert ApplyAll(items, gh, []) == gh;
  }

  lemma MadeLater(gh0: seq<Issue>, gh: seq<Issue>, handled: seq<Item>, item: Item)
    requires |gh0| <= |gh| && forall i :: |gh0| <= i < |gh| ==> Made(gh0, gh[i], handled)
    ensures forall i :: |gh0| <= i < |gh| ==> Made(gh0, gh[i], handled + [item])
  {
    forall i | |gh0| <= i < |gh|
      ensures Made(gh0, gh[i], handled + [item])
    {
      assert Made(gh0, gh[i], handled);
      var it :| it in handled && it.isOpen && Own(gh0, it.id).None? && gh[i] == Issue(TitleOf(it), true);
      assert it in handled + [item];
    }
  }

  lemma SyncedExisting(gh0: seq<Issue>, gh: seq<Issue>, handled: seq<Item>, item: Item, n: nat)
    requires IsId(item.id) && forall it :: it in handled ==> it.id != item.id
    requires Synced(gh0, gh, handled) && Own(gh0, item.id) == Some(n)
    ensures Synced(gh0, gh[n := Issue(TitleOf(item), item.isOpen)], handled + [item])
  {
    IdOfTitle(item);
    var gh' := gh[n := Issue(TitleOf(item), item.isOpen)];
    assert SameIds(gh0, gh');
    assert Standing(gh0, gh', handled + [item]);
    UntouchedExisting(gh0, gh, handled, item, n);
    NewExisting(gh0, gh, handled, item, n);
  }

  lemma UntouchedExisting(gh0: seq<Issue>, gh: seq<Issue>, handled: seq<Item>, item: Item, n: nat)
    requires |gh0| <= |gh| && Untouched(gh0, gh, handled) && Own(gh0, item.id) == Some(n)
    ensures Untouched(gh0, gh[n := Issue(TitleOf(item), item.isOpen)], handled + [item])
  {
    assert forall it :: it in handled ==> it in handled + [item];
    assert item in handled + [item];
  }

  lemma NewExisting(gh0: seq<Issue>, gh: seq<Issue>, handled: seq<Item>, item: Item, n: nat)
    requires n < |gh0| <= |gh| && NewIssues(gh0, gh, handled) && Own(gh0, item.id) == Some(n)
    ensures NewIssues(gh0, gh[n := Issue(TitleOf(item), item.isOpen)], handled + [item])
  {
    var gh' := gh[n := Issue(TitleOf(item), item.isOpen)];
    assert gh'[|gh0|..] == gh[|gh0|..];
    MadeLater(gh0, gh, handled, item);
  }

  lemma SyncedCreated(gh0: seq<Issue>, gh: seq<Issue>, handled: seq<Item>, item: Item)
    requires IsId(item.id) && forall it :: it in handled ==> it.id != item.id && IsId(it.id)
    requires Synced(gh0, gh, handled) && Own(gh0, item.id).None? && item.isOpen
    ensures Synced(gh0, gh + [Issue(TitleOf(item), true)], handled + [item])
  {
    var made := Issue(TitleOf(item), true);
    var gh' := gh + [made];
    assert SameIds(gh0, gh');
    assert Standing(gh0, gh', handled + [item]);
    assert Untouched(gh0, gh', handled + [item]) by {
      assert forall it :: it in handled ==> it in handled + [item];
    }
    CreatedIsNew(gh0, gh, handled, item);
  }

  lemma CreatedIsNew(gh0: seq<Issue>, gh: seq<Issue>, handled: seq<Item>, item: Item)
    requires IsId(item.id) && forall it :: it in handled ==> it.id != item.id && IsId(it.id)
    requires |gh0| <= |gh| && NewIssues(gh0, gh, handled) && Own(gh0, item.id).None? && item.isOpen
    ensures NewIssues(gh0, gh + [Issue(TitleOf(item), true)], handled + [item])
  {
    var made := Issue(TitleOf(item), true);
    AllMade(gh0, gh, handled, item);
    ProvidedLater(gh0, gh, handled, item);
    IdOfTitle(item);
    NotMadeFor(gh0, gh, handled, item);
    StillDistinct(gh, |gh0|, made);
  }

  lemma AllMade(gh0: seq<Issue>, gh: seq<Issue>, handled: seq<Item>, item: Item)
    requires |gh0| <= |gh| && Own(gh0, item.id).None? && item.isOpen
    requires forall i :: |gh0| <= i < |gh| ==> Made(gh0, gh[i], handled)
    ensures var gh' := gh + [Issue(TitleOf(item), true)];
            forall i :: |gh0| <= i < |gh'| ==> Made(gh0, gh'[i], handled + [item])
  {
    MadeLater(gh0, gh, handled, item);
    assert item in handled + [item];
    assert Made(gh0, Issue(TitleOf(item), true), handled + [item]);
  }

  lemma ProvidedLater(gh0: seq<Issue>, gh: seq<Issue>, handled: seq<Item>, item: Item)
    requires |gh0| <= |gh| && Provided(gh0, gh, handled)
    ensures Provided(gh0, gh + [Issue(TitleOf(item), true)], handled + [item])
  {
    var made := Issue(TitleOf(item), true);
    assert (gh + [made])[|gh0|..] == gh[|gh0|..] + [made];
  }

  lemma StillDistinct(gh: seq<Issue>, from: nat, made: Issue)
    requires from <= |gh| && DistinctFrom(gh, from)
    requires forall i :: from <= i < |gh| ==> IdOf(gh[i].title) != IdOf(made.title)
    ensures DistinctFrom(gh + [made], from)
  {
  }

  lemma NotMadeFor(gh0: seq<Issue>, gh: seq<Issue>, handled: seq<Item>, item: Item)
    requires forall it :: it in handled ==> it.id != item.id && IsId(it.id)
    requires |gh0| <= |gh| && forall i :: |gh0| <= i < |gh| ==> Made(gh0, gh[i], handled)
    ensures forall i :: |gh0| <= i < |gh| ==> IdOf(gh[i].title) != Some(item.id)
  {
    forall i | |gh0| <= i < |gh|
      ensures IdOf(gh[i].title) != Some(item.id)
    {
      assert Made(gh0, gh[i], handled);
      var it :| it in handled && it.isOpen && Own(gh0, it.id).None? && gh[i] == Issue(TitleOf(it), true);
      IdOfTitle(it);
    }
  }

  lemma SyncedSkipped(gh0: seq<Issue>, gh: seq<Issue>, handled: seq<Item>, item: Item)
    requires Synced(gh0, gh, handled) && Own(gh0, item.id).None? && !item.isOpen
    ensures Synced(gh0, gh, handled + [item])
  {
    assert Untouched(gh0, gh, handled + [item]) by {
      assert forall it :: it in handled ==> it in handled + [item];
    }
    MadeLater(gh0, gh, handled, item);
  }

  lemma {:induction false} SyncedItem(items: seq<Item>, gh0: seq<Issue>, gh: seq<Issue>, handled: seq<Item>, item: Item)
    requires UniqueItems(items) && item in items
    requires Synced(gh0, gh, handled)
    requires forall it :: it in handled ==> it.id != item.id && IsId(it.id)
    ensures Synced(gh0, ApplyAll(items, gh, Decide(item, FoundIn(gh0, item.id))), handled + [item])
  {
    var o := Own(gh0, item.id);
    if o.Some? {
      SettleExisting(items, gh0, gh, handled, item, o.value);
      SyncedExisting(gh0, gh, handled, item, o.value);
    } else if item.isOpen {
      MetaTitleOf(items, item);
      ApplySingle(items, gh, Create(item.id));
      SyncedCreated(gh0, gh, handled, item);
    } else {
      ApplySingle(items, gh, Skip(item.id));
      SyncedSkipped(gh0, gh, handled, item);
    }
  }

  /** One sync does to the tracker exactly what the wanted items say. */
  lemma {:induction false} SyncDoes(all: seq<Item>, items: seq<Item>, want: set<string>, gh: seq<Issue>)
    requires UniqueItems(all) && items <= all
    ensures Synced(gh, ApplyAll(all, gh, Plan(items, want, gh)), WantedOf(items, want))
    decreases |items|
  {
    if items != [] {
      var init, last := items[..|items| - 1], items[|items| - 1];
      assert init <= all;
      SyncDoes(all, init, want, gh);
      if Wanted(last, want) {
        WantedMembers(init, want);
        assert all[|items| - 1] == last;
        forall it | it in WantedOf(init, want)
          ensures it.id != last.id && IsId(it.id)
        {
          var i :| 0 <= i < |init| && init[i] == it;
          assert all[i] == it;
        }
        var gh1 := ApplyAll(all, gh, Plan(init, want, gh));
        ApplyAppend(all, gh, Plan(init, want, gh), Decide(last, FoundIn(gh, last.id)));
        SyncedItem(all, gh, gh1, WantedOf(init, want), last);
      } else {
        assert Plan(items, want, gh) == Plan(init, want, gh);
        assert WantedOf(items, want) == WantedOf(init, want);
      }
    }
  }

  lemma {:induction false} OldestPrefix(gh0: seq<Issue>, gh: seq<Issue>, id: string, from: nat)
    requires |gh0| <= |gh| && forall i :: 0 <= i < |gh0| ==> IdOf(gh[i].title) == IdOf(gh0[i].title)
    ensures Oldest(gh0, id, from).Some? ==> Oldest(gh, id, from) == Oldest(gh0, id, from)
    ensures Oldest(gh0, id, from).None? && Oldest(gh, id, from).Some? ==> Oldest(gh, id, from).value >= |gh0|
    decreases |gh0| - from
  {
    if from < |gh0| {
      OldestPrefix(gh0, gh, id, from + 1);
    }
  }

  /** A new issue stands for the one item that has its id. */
  lemma NewIssueOf(gh0: seq<Issue>, gh: seq<Issue>, items: seq<Item>, handled: seq<Item>, item: Item, k: nat)
    requires UniqueItems(items) && Synced(gh0, gh, handled) && |gh0| <= k < |gh|
    requires item in handled && forall it :: it in handled ==> it in items
    requires IdOf(gh[k].title) == Some(item.id)
    ensures Own(gh0, item.id).None? && item.isOpen && gh[k] == Issue(TitleOf(item), true)
  {
    assert Made(gh0, gh[k], handled);
    var it :| it in handled && it.isOpen && Own(gh0, it.id).None? && gh[k] == Issue(TitleOf(it), true);
    IdOfTitle(it);
    SameItem(items, it, item);
  }

  lemma QuietDecision(item: Item, found: Option<Existing>)
    ensures NothingToDo(Decide(item, found))
       <==> if found.None? then !item.isOpen
            else found.value.title == TitleOf(item) && found.value.isOpen == item.isOpen
  {
    var plan := Decide(item, found);
    assert |plan| > 0 && plan[0] in plan && plan[|plan| - 1] in plan;
  }

  /** An item whose issue is still shown finds it settled. */
  lemma SettledInSight(gh0: seq<Issue>, gh: seq<Issue>, handled: seq<Item>, item: Item)
    requires Synced(gh0, gh, handled) && item in handled
    requires Own(gh0, item.id).Some? && Own(gh0, item.id).value >= Shown(gh)
    ensures NothingToDo(Decide(item, FoundIn(gh, item.id)))
  {
    QuietDecision(item, FoundIn(gh, item.id));
    StillOldest(gh0, gh, item.id, Shown(gh));
    var n := Own(gh0, item.id).value;
    assert gh[n] == Issue(TitleOf(item), item.isOpen);
    assert FoundIn(gh, item.id) == Some(Recorded(gh, n));
  }

  lemma {:induction false} StillOldest(gh0: seq<Issue>, gh: seq<Issue>, id: string, w: nat)
    requires SameIds(gh0, gh) && Own(gh0, id).Some? && Shown(gh0) <= w <= Own(gh0, id).value
    ensures Oldest(gh, id, w) == Own(gh0, id)
  {
    OldestPrefix(gh0, gh, id, w);
    OldestFrom(gh0, id, Shown(gh0), w);
  }

  lemma {:induction false} OldestFrom(gh: seq<Issue>, id: string, a: nat, b: nat)
    requires Oldest(gh, id, a).Some? && a <= b <= Oldest(gh, id, a).value
    ensures Oldest(gh, id, b) == Oldest(gh, id, a)
    decreases b - a
  {
    if a < b {
      OldestFrom(gh, id, a + 1, b);
    }
  }

  /** So does an item that had none shown, as long as every new issue is. */
  lemma SettledAsNew(gh0: seq<Issue>, gh: seq<Issue>, items: seq<Item>, handled: seq<Item>, item: Item)
    requires UniqueItems(items) && Synced(gh0, gh, handled)
    requires item in handled && forall it :: it in handled ==> it in items
    requires Own(gh0, item.id).None? && Shown(gh) <= |gh0|
    ensures NothingToDo(Decide(item, FoundIn(gh, item.id)))
  {
    QuietDecision(item, FoundIn(gh, item.id));
    OldestPrefix(gh0, gh, item.id, Shown(gh));
    assert Oldest(gh0, item.id, Shown(gh)).None?;
    if item.isOpen {
      IdOfTitle(item);
      var k :| |gh0| <= k < |gh| && gh[k] == Issue(TitleOf(item), true);
    }
    var o := Oldest(gh, item.id, Shown(gh));
    if o.Some? {
      NewIssueOf(gh0, gh, items, handled, item, o.value);
    }
  }

  /** An item whose issue is no longer shown goes by the next one shown, which was not touched. */
  lemma OutOfSight(gh0: seq<Issue>, gh: seq<Issue>, items: seq<Item>, handled: seq<Item>, item: Item)
    requires UniqueItems(items) && Synced(gh0, gh, handled)
    requires item in handled && forall it :: it in handled ==> it in items
    requires Own(gh0, item.id).Some? && Own(gh0, item.id).value < Shown(gh)
    ensures NothingToDo(Decide(item, FoundIn(gh, item.id))) <==> NextFits(gh0, item, Shown(gh))
  {
    var w := Shown(gh);
    QuietDecision(item, FoundIn(gh, item.id));
    OldestPrefix(gh0, gh, item.id, w);
    var d := Oldest(gh0, item.id, w);
    if d.Some? {
      forall it | it in handled
        ensures Own(gh0, it.id) != Some(d.value)
      {
        if Own(gh0, it.id) == Some(d.value) {
          SameItem(items, it, item);
        }
      }
      assert gh[d.value] == gh0[d.value];
    } else {
      var o := Oldest(gh, item.id, w);
      if o.Some? {
        NewIssueOf(gh0, gh, items, handled, item, o.value);
      }
    }
  }

  /** What the listing would show for an item once everything before w has left it. */
  predicate NextFits(gh: seq<Issue>, item: Item, w: nat) {
    var d := Oldest(gh, item.id, w);
    if d.None? then !item.isOpen else gh[d.value] == Issue(TitleOf(item), item.isOpen)
  }

  /** With more new issues than a listing shows, the first of them is planned a second time. */
  lemma TooManyNew(gh0: seq<Issue>, gh: seq<Issue>, items: seq<Item>, handled: seq<Item>) returns (item: Item)
    requires UniqueItems(items) && Synced(gh0, gh, handled) && |gh0| < Shown(gh)
    requires forall it :: it in handled ==> it in items
    ensures item in handled && !NothingToDo(Decide(item, FoundIn(gh, item.id)))
  {
    var n := |gh0|;
    assert Made(gh0, gh[n], handled);
    item :| item in handled && item.isOpen && Own(gh0, item.id).None? && gh[n] == Issue(TitleOf(item), true);
    IdOfTitle(item);
    var o := Oldest(gh, item.id, Shown(gh));
    assert forall k :: n < k < |gh| ==> IdOf(gh[k].title) != IdOf(gh[n].title);
    assert o.None?;
    QuietDecision(item, None);
  }

  lemma SameItem(items: seq<Item>, a: Item, b: Item)
    requires UniqueItems(items) && a in items && b in items && a.id == b.id
    ensures a == b
  {
    var i :| 0 <= i < |items| && items[i] == a;
    var j :| 0 <= j < |items| && items[j] == b;
  }

  predicate NothingToDo(plan: seq<Action>) {
    forall a :: a in plan ==> a.Fine? || a.Skip?
  }

  predicate Settled(gh: seq<Issue>, item: Item) {
    NothingToDo(Decide(item, FoundIn(gh, item.id)))
  }

  lemma {:induction false} QuietPlan(items: seq<Item>, want: set<string>, gh: seq<Issue>)
    ensures NothingToDo(Plan(items, want, gh))
       <==> forall it :: it in items && Wanted(it, want) ==> Settled(gh, it)
  {
    if items != [] {
      var init, last := items[..|items| - 1], items[|items| - 1];
      assert items == init + [last];
      QuietPlan(init, want, gh);
      QuietAppend(Plan(init, want, gh), if Wanted(last, want) then Decide(last, FoundIn(gh, last.id)) else []);
    }
  }

  lemma QuietAppend(a: seq<Action>, b: seq<Action>)
    ensures NothingToDo(a + b) <==> NothingToDo(a) && NothingToDo(b)
  {
    assert forall x :: x in a + b <==> x in a || x in b;
  }

  /** How many issues a plan opens. */
  function Creates(plan: seq<Action>): nat {
    if plan == [] then 0 else Creates(plan[..|plan| - 1]) + if plan[|plan| - 1].Create? then 1 else 0
  }

  lemma {:induction false} CreatesGrow(items: seq<Item>, gh: seq<Issue>, plan: seq<Action>)
    ensures |ApplyAll(items, gh, plan)| == |gh| + Creates(plan)
  {
    if plan != [] {
      CreatesGrow(items, gh, plan[..|plan| - 1]);
    }
  }

  /** The planner converges in one step, for any backlog and any tracker, exactly when the plan
      opens no more issues than a listing shows and no item is left, once its own issue has
      dropped out of the listing, with an older state in sight. */
  lemma {:induction false} PlannerConvergesIff(items: seq<Item>, want: set<string>, gh: seq<Issue>)
    requires UniqueItems(items)
    ensures NothingToDo(Plan(items, want, Applied(items, want, gh))) <==> InSight(items, want, gh)
  {
    CreatesGrow(items, gh, Plan(items, want, gh));
    QuietAfter(items, want, gh, Applied(items, want, gh), Created(items, want, gh));
  }

  /** The tracker after one round of planning and executing. */
  function Applied(items: seq<Item>, want: set<string>, gh: seq<Issue>): seq<Issue> {
    ApplyAll(items, gh, Plan(items, want, gh))
  }

  function Created(items: seq<Item>, want: set<string>, gh: seq<Issue>): nat {
    Creates(Plan(items, want, gh))
  }

  /** The new issues fit the listing, and they push no item's issue out of it so that an older
      state comes into sight. */
  ghost predicate InSight(items: seq<Item>, want: set<string>, gh: seq<Issue>) {
    FitsWith(items, want, gh, Created(items, want, gh))
  }

  ghost predicate FitsWith(items: seq<Item>, want: set<string>, gh: seq<Issue>, made: nat) {
    made <= LIMIT && NobodyLeftBehind(items, want, gh, Hidden(|gh| + made))
  }

  lemma {:induction false} QuietAfter(items: seq<Item>, want: set<string>, gh0: seq<Issue>, gh: seq<Issue>, made: nat)
    requires UniqueItems(items) && gh == Applied(items, want, gh0) && made == |gh| - |gh0|
    ensures NothingToDo(Plan(items, want, gh)) <==> FitsWith(items, want, gh0, made)
  {
    QuietShown(items, want, gh0, gh, made, Hidden(|gh0| + made));
  }

  lemma {:induction false} QuietShown(items: seq<Item>, want: set<string>, gh0: seq<Issue>, gh: seq<Issue>, made: nat,
                                      w: nat)
    requires UniqueItems(items) && gh == Applied(items, want, gh0)
    requires made == |gh| - |gh0| && w == Shown(gh)
    ensures NothingToDo(Plan(items, want, gh)) <==> made <= LIMIT && NobodyLeftBehind(items, want, gh0, w)
  {
    SyncDoes(items, items, want, gh0);
    QuietIff(items, want, gh0, gh);
  }

  lemma {:induction false} QuietIff(items: seq<Item>, want: set<string>, gh0: seq<Issue>, gh: seq<Issue>)
    requires UniqueItems(items) && Synced(gh0, gh, WantedOf(items, want))
    ensures NothingToDo(Plan(items, want, gh))
       <==> |gh| - |gh0| <= LIMIT && NobodyLeftBehind(items, want, gh0, Shown(gh))
  {
    WantedMembers(items, want);
    QuietPlan(items, want, gh);
    SettledIff(gh0, gh, items, WantedOf(items, want));
  }

  /** Whether an item is out of step once only the issues from w on are shown. */
  predicate LeftBehind(gh: seq<Issue>, item: Item, w: nat) {
    Own(gh, item.id).Some? && Own(gh, item.id).value < w && !NextFits(gh, item, w)
  }

  ghost predicate NobodyLeftBehind(items: seq<Item>, want: set<string>, gh: seq<Issue>, w: nat) {
    forall it :: it in items && Wanted(it, want) ==> !LeftBehind(gh, it, w)
  }

  lemma NobodyYet(items: seq<Item>, want: set<string>, gh: seq<Issue>)
    ensures NobodyLeftBehind(items, want, gh, 0)
  {
  }

  lemma SettledIff(gh0: seq<Issue>, gh: seq<Issue>, items: seq<Item>, handled: seq<Item>)
    requires UniqueItems(items) && Synced(gh0, gh, handled) && forall it :: it in handled ==> it in items
    ensures (forall it :: it in handled ==> Settled(gh, it))
       <==> |gh| - |gh0| <= LIMIT && forall it :: it in handled ==> !LeftBehind(gh0, it, Shown(gh))
  {
    if |gh| - |gh0| > LIMIT {
      var it := TooManyNew(gh0, gh, items, handled);
    } else {
      forall it | it in handled
        ensures Settled(gh, it) <==> !LeftBehind(gh0, it, Shown(gh))
      {
        if Own(gh0, it.id).Some? && Own(gh0, it.id).value < Shown(gh) {
          OutOfSight(gh0, gh, items, handled, it);
        } else if Own(gh0, it.id).Some? {
          SettledInSight(gh0, gh, handled, it);
        } else {
          SettledAsNew(gh0, gh, items, handled, it);
        }
      }
    }
  }

  /** Planning again after applying the plan finds every item in the right state, provided the
      listing shows every issue. */
  lemma {:induction false} PlannerConverges(items: seq<Item>, want: set<string>, gh: seq<Issue>)
    requires UniqueItems(items) && |gh| + Created(items, want, gh) <= LIMIT
    ensures NothingToDo(Plan(items, want, Applied(items, want, gh)))
  {
    NobodyYet(items, want, gh);
    PlannerConvergesIff(items, want, gh);
  }

  // ----- the filter, the lines and the titles, spelled out

  /** With unique ids there is a line about an item exactly when the filter is empty or names
      the item's milestone. */
  lemma {:induction false} PlannedIff(items: seq<Item>, want: set<string>, gh: seq<Issue>, item: Item)
    requires UniqueItems(items) && item in items
    ensures (exists a :: a in Plan(items, want, gh) && a.id == item.id) <==> want == {} || item.msid in want
  {
    PlanIds(items, want, gh, item.id);
    forall it | it in items && it.id == item.id
      ensures it == item
    {
      SameItem(items, it, item);
    }
  }

  lemma {:induction false} PlanIds(items: seq<Item>, want: set<string>, gh: seq<Issue>, id: string)
    ensures (exists a :: a in Plan(items, want, gh) && a.id == id)
       <==> exists it :: it in items && it.id == id && (want == {} || it.msid in want)
  {
    if items != [] {
      var init, last := items[..|items| - 1], items[|items| - 1];
      InitLast(items);
      PlanIds(init, want, gh, id);
      DecideIds(last, FoundIn(gh, last.id));
      var before, lines := Plan(init, want, gh), Decide(last, FoundIn(gh, last.id));
      if last.id == id && (want == {} || last.msid in want) {
        assert lines[0] in Plan(items, want, gh) && lines[0].id == id;
        assert last in items;
      }
      assert forall a :: a in before ==> a in Plan(items, want, gh);
      assert forall it :: it in items <==> it in init || it == last;
    }
  }

  lemma DecideIds(item: Item, found: Option<Existing>)
    ensures Decide(item, found) != [] && forall a :: a in Decide(item, found) ==> a.id == item.id
  {
  }

  /** Which lines an item gets, from its status and the issue that stands for it. */
  lemma LinesSay(item: Item, found: Option<Existing>, n: nat)
    ensures var lines := Decide(item, found);
            && (Create(item.id) in lines <==> item.isOpen && found.None?)
            && (Skip(item.id) in lines <==> !item.isOpen && found.None?)
            && (Reopen(item.id, n) in lines
                <==> item.isOpen && found.Some? && !found.value.isOpen && found.value.num == n)
            && (Close(item.id, n) in lines
                <==> !item.isOpen && found.Some? && found.value.isOpen && found.value.num == n)
            && (Fine(item.id, n) in lines
                <==> found.Some? && found.value.isOpen == item.isOpen && found.value.num == n)
            && (Retitle(item.id, n) in lines
                <==> found.Some? && found.value.title != item.id + " \U{2014} " + item.title && found.value.num == n)
            && (Retitle(item.id, n) in lines ==> lines[0] == Retitle(item.id, n))
  {
    assert TitleOf(item) == item.id + " \U{2014} " + item.title;
  }

  lemma IdSpelled(id: string)
    ensures IsId(id) <==> exists n :: n != "" && id == "GD-" + n && forall c :: c in n ==> '0' <= c <= '9'
  {
    if IsId(id) {
      var n := id[3..];
      assert n != "" && id == "GD-" + n && forall c :: c in n ==> '0' <= c <= '9';
    }
    if n :| n != "" && id == "GD-" + n && forall c :: c in n ==> '0' <= c <= '9' {
      assert id[..3] == "GD-";
      forall i | 3 <= i < |id|
        ensures '0' <= id[i] <= '9'
      {
        assert id[i] == n[i - 3] && n[i - 3] in n;
      }
    }
  }

  /** A title stands for an id when it is the id, or the id, a spaced dash, and more. */
  lemma IdOfReads(title: string, id: string)
    ensures IdOf(title) == Some(id) <==> IsId(id) && (title == id || id + " \U{2014} " <= title)
  {
    var dash := Index(title, DASH);
    IndexMeaning(title, DASH);
    if IsId(id) && title == id {
      NoDash(title);
    } else if IsId(id) && id + DASH <= title {
      DashAfter(title, id);
      assert title[..|id|] == (id + DASH)[..|id|] == id;
    }
    if dash > 0 {
      CutAtDash(title, dash - 1);
      assert IdOf(title) == Some(id) ==> id == title[..dash - 1];
    }
    assert id + DASH == id + " \U{2014} ";
  }

  lemma CutAtDash(title: string, p: nat)
    requires OccursAt(title, DASH, p)
    ensures title[..p] + DASH <= title
  {
    assert title[..p] + DASH == title[..p + |DASH|];
  }

  lemma {:induction false} NoDash(id: string)
    requires IsId(id)
    ensures Index(id, DASH) == 0
  {
    IndexMeaning(id, DASH);
    assert forall i :: 0 <= i < |id| ==> id[i] != ' ' by {
      assert id[0] == "GD-"[0] && id[1] == "GD-"[1] && id[2] == "GD-"[2];
    }
    forall p: nat | p < |id|
      ensures !OccursAt(id, DASH, p)
    {
      OccursHead(id, DASH, p);
    }
  }

  lemma {:induction false} DashAfter(title: string, id: string)
    requires IsId(id) && id + DASH <= title
    ensures Index(title, DASH) == |id| + 1
  {
    IndexMeaning(title, DASH);
    assert title[|id|..|id| + |DASH|] == DASH;
    assert OccursAt(title, DASH, |id|);
    forall p | 0 <= p < |id|
      ensures !OccursAt(title, DASH, p)
    {
      assert title[p] == id[p];
      assert p < 3 ==> id[p] == "GD-"[p];
      OccursHead(title, DASH, p);
    }
  }

  /** What one round does for an item the filter lets through: the oldest issue shown for it has
      its title and state, or there is a new open one if the item is open. */
  lemma {:induction false} WantedItemGets(items: seq<Item>, want: set<string>, gh: seq<Issue>, item: Item)
    requires UniqueItems(items) && item in items && (want == {} || item.msid in want)
    ensures var gh', shown := Applied(items, want, gh), Oldest(gh, item.id, if |gh| > 500 then |gh| - 500 else 0);
            var title := item.id + " \U{2014} " + item.title;
            && |gh'| >= |gh|
            && (shown.Some? ==> gh'[shown.value] == Issue(title, item.isOpen))
            && (shown.None? && item.isOpen ==> Issue(title, true) in gh'[|gh|..])
  {
    SyncDoes(items, items, want, gh);
    WantedMembers(items, want);
    assert item in WantedOf(items, want);
    assert TitleOf(item) == item.id + " \U{2014} " + item.title;
  }

  /** No issue of an open item is ever closed; a filter leaves the issues of other items, and
      issues that belong to no item, exactly as they were; and ids never change. */
  lemma SyncIsSafe(items: seq<Item>, want: set<string>, gh: seq<Issue>, i: nat)
    requires UniqueItems(items) && i < |gh|
    ensures var gh' := Applied(items, want, gh);
            && |gh'| >= |gh|
            && IdOf(gh'[i].title) == IdOf(gh[i].title)
            && ((forall it :: it in items && (want == {} || it.msid in want) ==> IdOf(gh[i].title) != Some(it.id))
                ==> gh'[i] == gh[i])
            && (gh[i].isOpen != gh'[i].isOpen ==>
                  exists it :: it in items && (want == {} || it.msid in want)
                               && it.isOpen == gh'[i].isOpen && IdOf(gh[i].title) == Some(it.id))
  {
    var gh' := Applied(items, want, gh);
    SyncDoes(items, items, want, gh);
    WantedMembers(items, want);
    if it :| it in WantedOf(items, want) && Own(gh, it.id) == Some(i) {
      assert gh'[i] == Issue(TitleOf(it), it.isOpen);
      assert IdOf(gh[i].title) == Some(it.id);
    } else {
      assert gh'[i] == gh[i];
    }
  }

  /** No id gets a second issue in sight: a new issue belongs to a wanted open item, no shown
      issue had its id, and no other new issue shares it. */
  lemma NoSecondIssue(items: seq<Item>, want: set<string>, gh: seq<Issue>, j: nat)
    requires UniqueItems(items)
    requires |gh| <= j < |Applied(items, want, gh)|
    ensures var gh' := Applied(items, want, gh);
            && (exists it :: it in items && (want == {} || it.msid in want)
                             && it.isOpen && gh'[j] == Issue(TitleOf(it), true))
            && forall i :: Shown(gh) <= i < |gh'| && i != j ==> IdOf(gh'[i].title) != IdOf(gh'[j].title)
  {
    var gh' := Applied(items, want, gh);
    SyncDoes(items, items, want, gh);
    WantedMembers(items, want);
    assert Made(gh, gh'[j], WantedOf(items, want));
    var it :| it in WantedOf(items, want) && it.isOpen && Own(gh, it.id).None? && gh'[j] == Issue(TitleOf(it), true);
    IdOfTitle(it);
    forall i | Shown(gh) <= i < |gh'| && i != j
      ensures IdOf(gh'[i].title) != IdOf(gh'[j].title)
    {
      if i < |gh| {
        assert IdOf(gh'[i].title) == IdOf(gh[i].title);
      }
    }
  }

  /** Beyond the listing's limit the promise ends: an open item gets a second issue exactly
      when all the issues it has are older than the newest five hundred. */
  lemma {:induction false} SecondIssueIff(item: Item, gh: seq<Issue>)
    requires item.isOpen && Oldest(gh, item.id, 0).Some?
    ensures Create(item.id) in Decide(item, FoundIn(gh, item.id))
       <==> (forall i :: 0 <= i < |gh| && IdOf(gh[i].title) == Some(item.id) ==> i < |gh| - 500)
  {
    var o := Oldest(gh, item.id, Shown(gh));
    if o.Some? {
      assert Shown(gh) <= o.value;
    }
  }
}
