/**
 The table-of-contents rewrite of dochack (tools/dochack/dochack.js): the procs
 that belong to a type are moved from the old table under that type, by marking
 page elements and leaving marked leaves out of the old table.
 */
module Toc {
  import opened Results

  /** A DOM element of the page. `attached` holds the texts of the "attachedType" elements below its parent. */
  class Element {
    const text: string
    const title: string
    const href: string
    const attached: seq<string>
    var marked: bool

    constructor (text: string, title: string, href: string, attached: seq<string>)
      ensures this.text == text && this.title == title && this.href == href && this.attached == attached && !marked
    {
      this.text := text;
      this.title := title;
      this.href := href;
      this.attached := attached;
      this.marked := false;
    }
  }

  /** A heading is an element of the page, a copy of one, or a new link. The last two never carry the marker. */
  datatype Heading = Page(node: Element) | Clone(node: Element) | Link(title: string, href: string)

  datatype Entry = Entry(heading: Option<Heading>, kids: seq<Entry>, sortId: int, doSort: bool)

  predicate IsLeaf(x: Entry) {
    x.kids == [] && x.heading.Some?
  }

  predicate Covered(h: Heading, marks: set<Element>) {
    h.Page? && h.node in marks
  }

  /** Which elements of the page carry the marker. */
  ghost predicate Marking(page: set<Element>, marks: set<Element>)
    reads page
  {
    forall e | e in page :: (e.marked <==> e in marks)
  }

  /** All headings taken from the page are elements of `page`. */
  predicate On(x: Entry, page: set<Element>)
    decreases x
  {
    && (x.heading.Some? && x.heading.value.Page? ==> x.heading.value.node in page)
    && forall k | k in x.kids :: On(k, page)
  }

  /** What `uncovered` keeps of an entry and of a list of entries, given the marked elements. */
  function Uncovered(x: Entry, marks: set<Element>): Option<Entry>
    decreases x
  {
    if IsLeaf(x) then
      if Covered(x.heading.value, marks) then None else Some(x)
    else
      var kids := UncoveredAll(x.kids, marks);
      if kids == [] then None else Some(x.(kids := kids))
  }

  function UncoveredAll(xs: seq<Entry>, marks: set<Element>): seq<Entry>
    decreases xs
  {
    if xs == [] then []
    else
      var last := xs[|xs| - 1];
      UncoveredAll(xs[..|xs| - 1], marks) + match Uncovered(last, marks) { case None => [] case Some(y) => [y] }
  }

  method FindUncovered(x: Entry, ghost page: set<Element>, ghost marks: set<Element>) returns (r: Option<Entry>)
    requires Marking(page, marks) && On(x, page)
    ensures r == Uncovered(x, marks)
    decreases x
  {
    if x.kids == [] && x.heading.Some? {
      var heading := x.heading.value;
      return if heading.Page? && heading.node.marked then None else Some(x);
    }
    var kids: seq<Entry> := [];
    for i := 0 to |x.kids|
      invariant kids == UncoveredAll(x.kids[..i], marks)
    {
      var y := FindUncovered(x.kids[i], page, marks);
      assert x.kids[..i + 1][..i] == x.kids[..i];
      if y.Some? { kids := kids + [y.value]; }
    }
    assert x.kids[..|x.kids|] == x.kids;
    r := if kids == [] then None else Some(x.(kids := kids));
  }

  // ----- the items below a heading

  function TextOf(h: Heading): string {
    if h.Link? then h.title else h.node.text
  }

  predicate Titled(x: Entry, title: string) {
    x.heading.Some? && TextOf(x.heading.value) == title
  }

  /** The headings right below the groups of that title, in order; groups inside such a group do not count. */
  function Items(x: Entry, title: string): seq<Option<Heading>>
    decreases x
  {
    if Titled(x, title) then seq(|x.kids|, i requires 0 <= i < |x.kids| => x.kids[i].heading)
    else ItemsBelow(x.kids, title)
  }

  function ItemsBelow(xs: seq<Entry>, title: string): seq<Option<Heading>>
    decreases xs
  {
    if xs == [] then [] else ItemsBelow(xs[..|xs| - 1], title) + Items(xs[|xs| - 1], title)
  }

  function ItemsOf(x: Entry, titles: seq<string>): seq<Option<Heading>> {
    if titles == [] then [] else ItemsOf(x, titles[..|titles| - 1]) + Items(x, titles[|titles| - 1])
  }

  method ExtractItems(x: Entry, title: string, items: seq<Option<Heading>>) returns (r: seq<Option<Heading>>)
    ensures r == items + Items(x, title)
    decreases x
  {
    r := items;
    if x.heading.Some? && TextOf(x.heading.value) == title {
      for i := 0 to |x.kids|
        invariant r == items + Items(x, title)[..i]
      {
        r := r + [x.kids[i].heading];
      }
    } else {
      for i := 0 to |x.kids|
        invariant r == items + ItemsBelow(x.kids[..i], title)
      {
        r := ExtractItems(x.kids[i], title, r);
        assert x.kids[..i + 1][..i] == x.kids[..i];
      }
      assert x.kids[..|x.kids|] == x.kids;
    }
  }

  // ----- where the items are

  /** The entry that is reached by taking these kids one after the other. */
  function Sub(x: Entry, p: seq<nat>): Option<Entry>
    decreases |p|
  {
    if p == [] then Some(x) else if p[0] < |x.kids| then Sub(x.kids[p[0]], p[1..]) else None
  }

  /** There is an entry, and of those above it the nearest one has the title, and no other. */
  predicate ItemAddress(x: Entry, title: string, p: seq<nat>) {
    && p != [] && Sub(x, p).Some?
    && forall k | 0 <= k < |p| ::
         Sub(x, p[..k]).Some? && (Titled(Sub(x, p[..k]).value, title) <==> k == |p| - 1)
  }

  /** The order of the page. */
  predicate Before(p: seq<nat>, q: seq<nat>)
    decreases |p|
  {
    p != [] && q != [] && (p[0] < q[0] || (p[0] == q[0] && Before(p[1..], q[1..])))
  }

  lemma AddressStep(x: Entry, title: string, p: seq<nat>)
    ensures ItemAddress(x, title, p)
       <==> && p != [] && p[0] < |x.kids|
            && if Titled(x, title) then |p| == 1 else |p| > 1 && ItemAddress(x.kids[p[0]], title, p[1..])
  {
    hide Titled;
    if p != [] && p[0] < |x.kids| {
      var kid, rest := x.kids[p[0]], p[1..];
      assert p[..0] == [] && Sub(x, p[..0]) == Some(x);
      forall k | 0 < k < |p| ensures Sub(x, p[..k]) == Sub(kid, rest[..k - 1]) {
        assert p[..k][1..] == rest[..k - 1] && p[..k][0] == p[0];
      }
      if |p| > 1 && !Titled(x, title) {
        NextAddress(x, title, p);
      } else {
        LastAddress(x, title, p);
      }
    }
  }

  lemma LastAddress(x: Entry, title: string, p: seq<nat>)
    requires p != [] && p[0] < |x.kids| && (|p| == 1 || Titled(x, title))
    requires Sub(x, p[..0]) == Some(x)
    ensures ItemAddress(x, title, p) <==> |p| == 1 && Titled(x, title)
  {
    hide Titled;
    if ItemAddress(x, title, p) {
      assert Titled(Sub(x, p[..0]).value, title) <==> 0 == |p| - 1;
    }
    if |p| == 1 && Titled(x, title) {
      assert p[1..] == [] && Sub(x, p) == Some(x.kids[p[0]]);
      forall k | 0 <= k < |p|
        ensures Sub(x, p[..k]).Some? && (Titled(Sub(x, p[..k]).value, title) <==> k == |p| - 1)
      {
        assert k == 0;
      }
    }
  }

  lemma NextAddress(x: Entry, title: string, p: seq<nat>)
    requires |p| > 1 && p[0] < |x.kids| && !Titled(x, title)
    requires Sub(x, p[..0]) == Some(x)
    requires forall k | 0 < k < |p| :: Sub(x, p[..k]) == Sub(x.kids[p[0]], p[1..][..k - 1])
    ensures ItemAddress(x, title, p) <==> ItemAddress(x.kids[p[0]], title, p[1..])
  {
    hide Titled;
    var kid, rest := x.kids[p[0]], p[1..];
    if ItemAddress(x, title, p) {
      forall k | 0 <= k < |rest|
        ensures Sub(kid, rest[..k]).Some? && (Titled(Sub(kid, rest[..k]).value, title) <==> k == |rest| - 1)
      {
        assert Sub(x, p[..k + 1]) == Sub(kid, rest[..k + 1 - 1]);
      }
    }
    if ItemAddress(kid, title, rest) {
      forall k | 0 <= k < |p|
        ensures Sub(x, p[..k]).Some? && (Titled(Sub(x, p[..k]).value, title) <==> k == |p| - 1)
      {
        if k > 0 { assert Sub(x, p[..k]) == Sub(kid, rest[..k - 1]); }
      }
    }
  }

  ghost predicate Ordered(at: seq<seq<nat>>) {
    forall i, j | 0 <= i < j < |at| :: Before(at[i], at[j])
  }

  predicate Headings(x: Entry, at: seq<seq<nat>>, items: seq<Option<Heading>>) {
    |at| == |items| && forall i | 0 <= i < |at| :: Sub(x, at[i]).Some? && Sub(x, at[i]).value.heading == items[i]
  }

  /** The items are the headings at all these addresses, in the order of the page. */
  lemma {:induction false} ItemsAre(x: Entry, title: string) returns (at: seq<seq<nat>>)
    ensures Ordered(at) && Headings(x, at, Items(x, title))
    ensures forall p :: p in at <==> ItemAddress(x, title, p)
    decreases x
  {
    hide ItemAddress, Titled;
    if Titled(x, title) {
      at := seq(|x.kids|, i requires 0 <= i < |x.kids| => [i]);
      forall i | 0 <= i < |at| ensures Sub(x, at[i]) == Some(x.kids[i]) {
        assert at[i][1..] == [];
      }
      forall p ensures p in at <==> ItemAddress(x, title, p) {
        AddressStep(x, title, p);
        if |p| == 1 && p[0] < |x.kids| { assert p == at[p[0]]; }
      }
    } else {
      at := ItemsBelowAre(x, x.kids, title);
      forall p ensures p in at <==> ItemAddress(x, title, p) {
        AddressStep(x, title, p);
      }
    }
  }

  predicate AddressBelow(xs: seq<Entry>, title: string, p: seq<nat>) {
    |p| > 1 && p[0] < |xs| && ItemAddress(xs[p[0]], title, p[1..])
  }

  lemma {:induction false} ItemsBelowAre(x: Entry, xs: seq<Entry>, title: string) returns (at: seq<seq<nat>>)
    requires xs <= x.kids
    ensures Ordered(at) && Headings(x, at, ItemsBelow(xs, title))
    ensures forall p :: p in at <==> AddressBelow(xs, title, p)
    decreases x, |xs|
  {
    hide ItemAddress, Items, Titled, Ordered, Headings, AddressBelow;
    at := [];
    if xs == [] {
      NoItems(x, title);
    } else {
      var n := |xs| - 1;
      var rest := ItemsBelowAre(x, xs[..n], title);
      var last := ItemsAre(x.kids[n], title);
      assert xs[n] == x.kids[n];
      var more := seq(|last|, i requires 0 <= i < |last| => [n] + last[i]);
      at := rest + more;
      MoreHeadings(x, n, last, more, Items(xs[n], title));
      BothHeadings(x, rest, more, ItemsBelow(xs[..n], title), Items(xs[n], title));
      MoreOrdered(n, last, more);
      BothOrdered(xs[..n], title, n, rest, more);
      forall p ensures p in at <==> AddressBelow(xs, title, p) {
        MoreAddresses(xs, title, n, rest, last, more, p);
      }
    }
  }

  lemma NoItems(x: Entry, title: string)
    ensures Ordered([]) && Headings(x, [], ItemsBelow([], title))
    ensures forall p :: !AddressBelow([], title, p)
  {
  }

  lemma BothHeadings(x: Entry, a: seq<seq<nat>>, b: seq<seq<nat>>, s: seq<Option<Heading>>, t: seq<Option<Heading>>)
    requires Headings(x, a, s) && Headings(x, b, t)
    ensures Headings(x, a + b, s + t)
  {
    hide Sub;
  }

  lemma BothOrdered(xs: seq<Entry>, title: string, n: nat, rest: seq<seq<nat>>, more: seq<seq<nat>>)
    requires Ordered(rest) && Ordered(more) && |xs| == n
    requires forall p | p in rest :: AddressBelow(xs, title, p)
    requires forall j | 0 <= j < |more| :: more[j] != [] && more[j][0] == n
    ensures Ordered(rest + more)
  {
    hide ItemAddress;
    forall i, j | 0 <= i < |rest| && 0 <= j < |more| ensures Before(rest[i], more[j]) {
      assert rest[i] in rest;
    }
  }

  lemma MoreHeadings(x: Entry, n: nat, last: seq<seq<nat>>, more: seq<seq<nat>>, items: seq<Option<Heading>>)
    requires n < |x.kids| && |more| == |last| && forall i | 0 <= i < |last| :: more[i] == [n] + last[i]
    requires Headings(x.kids[n], last, items)
    ensures Headings(x, more, items)
  {
    forall i | 0 <= i < |more| ensures Sub(x, more[i]) == Sub(x.kids[n], last[i]) {
      assert more[i][1..] == last[i];
    }
  }

  lemma MoreOrdered(n: nat, last: seq<seq<nat>>, more: seq<seq<nat>>)
    requires |more| == |last| && forall i | 0 <= i < |last| :: more[i] == [n] + last[i]
    requires Ordered(last)
    ensures Ordered(more)
  {
    forall i, j | 0 <= i < j < |more| ensures Before(more[i], more[j]) {
      assert more[i][1..] == last[i] && more[j][1..] == last[j];
    }
  }

  lemma MoreAddresses(xs: seq<Entry>, title: string, n: nat, rest: seq<seq<nat>>, last: seq<seq<nat>>,
                      more: seq<seq<nat>>, p: seq<nat>)
    requires |xs| == n + 1 && |more| == |last| && forall i | 0 <= i < |last| :: more[i] == [n] + last[i]
    requires p in rest <==> AddressBelow(xs[..n], title, p)
    requires forall q :: q in last <==> ItemAddress(xs[n], title, q)
    ensures p in rest + more <==> AddressBelow(xs, title, p)
  {
    hide ItemAddress;
    if p in more {
      var i :| 0 <= i < |more| && more[i] == p;
      assert p[1..] == last[i] && last[i] in last;
      NotEmpty(xs[n], title, last[i]);
    }
    if p != [] && p[0] == n && p[1..] in last {
      var i :| 0 <= i < |last| && last[i] == p[1..];
      assert p == [n] + p[1..] == more[i];
    }
  }

  lemma NotEmpty(x: Entry, title: string, p: seq<nat>)
    requires ItemAddress(x, title, p)
    ensures p != []
  {
  }

  // ----- what a table says: its leaves in order, each with the headings above it

  datatype Label = Label(heading: Option<Heading>, sortId: int, doSort: bool)

  function LabelOf(x: Entry): Label {
    Label(x.heading, x.sortId, x.doSort)
  }

  function Paths(x: Entry): (r: seq<seq<Label>>)
    ensures forall i | 0 <= i < |r| :: r[i] != []
    decreases x
  {
    if IsLeaf(x) then [[LabelOf(x)]] else Under(LabelOf(x), Below(x.kids))
  }

  function Below(xs: seq<Entry>): (r: seq<seq<Label>>)
    ensures forall i | 0 <= i < |r| :: r[i] != []
    decreases xs
  {
    if xs == [] then [] else Below(xs[..|xs| - 1]) + Paths(xs[|xs| - 1])
  }

  function Under(l: Label, paths: seq<seq<Label>>): (r: seq<seq<Label>>)
    ensures |r| == |paths|
    ensures forall i | 0 <= i < |r| :: r[i] == [l] + paths[i]
  {
    seq(|paths|, i requires 0 <= i < |paths| => [l] + paths[i])
  }

  predicate EndsCovered(path: seq<Label>, marks: set<Element>) {
    path != [] && path[|path| - 1].heading.Some? && Covered(path[|path| - 1].heading.value, marks)
  }

  /** The paths whose leaf is not marked. */
  function Kept(paths: seq<seq<Label>>, marks: set<Element>): (r: seq<seq<Label>>)
    ensures forall p | p in r :: p in paths && !EndsCovered(p, marks)
    ensures forall p | p in paths && !EndsCovered(p, marks) :: p in r
  {
    if paths == [] then []
    else
      var last := paths[|paths| - 1];
      var rest := Kept(paths[..|paths| - 1], marks);
      assert paths == paths[..|paths| - 1] + [last];
      if EndsCovered(last, marks) then rest else rest + [last]
  }

  /** No node without kids is there except a leaf with a heading. */
  predicate Lean(x: Entry)
    decreases x
  {
    IsLeaf(x) || (x.kids != [] && forall k | k in x.kids :: Lean(k))
  }

  /** `picked` is what `all` has at these positions, in order. */
  predicate Picks(picked: seq<seq<Label>>, all: seq<seq<Label>>, at: seq<nat>) {
    && |picked| == |at| && (forall i, j | 0 <= i < j < |at| :: at[i] < at[j])
    && forall i | 0 <= i < |at| :: at[i] < |all| && picked[i] == all[at[i]]
  }

  /** Keeping takes out the paths whose leaf is marked and leaves the others in order. */
  lemma {:induction false} KeptPicks(paths: seq<seq<Label>>, marks: set<Element>) returns (at: seq<nat>)
    ensures Picks(Kept(paths, marks), paths, at)
    ensures forall j: nat :: j in at <==> j < |paths| && !EndsCovered(paths[j], marks)
  {
    hide EndsCovered, Kept, Picks;
    if paths == [] {
      at := [];
      KeptNothing(marks);
    } else {
      var n := |paths| - 1;
      var rest := KeptPicks(paths[..n], marks);
      KeptNext(paths, marks);
      PicksMore(Kept(paths[..n], marks), paths, rest);
      at := if EndsCovered(paths[n], marks) then rest else rest + [n];
      forall j: nat ensures j in at <==> j < |paths| && !EndsCovered(paths[j], marks) {
        assert j in rest <==> j < n && !EndsCovered(paths[..n][j], marks);
      }
    }
  }

  lemma KeptNothing(marks: set<Element>)
    ensures Picks(Kept([], marks), [], [])
  {
  }

  lemma KeptNext(paths: seq<seq<Label>>, marks: set<Element>)
    requires paths != []
    ensures var n := |paths| - 1;
            Kept(paths, marks) == Kept(paths[..n], marks) + if EndsCovered(paths[n], marks) then [] else [paths[n]]
  {
    hide EndsCovered;
  }

  lemma PicksMore(picked: seq<seq<Label>>, all: seq<seq<Label>>, at: seq<nat>)
    requires all != [] && Picks(picked, all[..|all| - 1], at)
    ensures Picks(picked + [], all, at) && Picks(picked + [all[|all| - 1]], all, at + [|all| - 1])
  {
    assert picked + [] == picked;
  }

  lemma {:induction false} KeptConcat(a: seq<seq<Label>>, b: seq<seq<Label>>, marks: set<Element>)
    ensures Kept(a + b, marks) == Kept(a, marks) + Kept(b, marks)
    decreases |b|
  {
    if b == [] {
      assert a + b == a;
    } else {
      var init := b[..|b| - 1];
      assert (a + b)[..|a + b| - 1] == a + init;
      KeptConcat(a, init, marks);
    }
  }

  lemma UnderSnoc(l: Label, paths: seq<seq<Label>>, path: seq<Label>)
    ensures Under(l, paths + [path]) == Under(l, paths) + [[l] + path]
  {
  }

  lemma SameEnd(l: Label, path: seq<Label>, marks: set<Element>)
    requires path != []
    ensures EndsCovered([l] + path, marks) == EndsCovered(path, marks)
  {
  }

  lemma {:induction false} KeptUnder(l: Label, paths: seq<seq<Label>>, marks: set<Element>)
    requires forall i | 0 <= i < |paths| :: paths[i] != []
    ensures Kept(Under(l, paths), marks) == Under(l, Kept(paths, marks))
    decreases |paths|
  {
    hide EndsCovered;
    if paths != [] {
      var init := paths[..|paths| - 1];
      var last := paths[|paths| - 1];
      assert Under(l, paths)[..|paths| - 1] == Under(l, init);
      KeptUnder(l, init, marks);
      UnderSnoc(l, Kept(init, marks), last);
      SameEnd(l, last, marks);
    }
  }

  /**
     `uncovered` keeps exactly the unmarked leaves, in order and under the same
     headings, is null exactly if there are none, and leaves no empty group
     behind.
     */
  lemma {:induction false} UncoveredKeepsLeaves(x: Entry, marks: set<Element>)
    ensures Uncovered(x, marks).None? <==> Kept(Paths(x), marks) == []
    ensures Uncovered(x, marks).Some? ==> Paths(Uncovered(x, marks).value) == Kept(Paths(x), marks)
    ensures Uncovered(x, marks).Some? ==> Lean(Uncovered(x, marks).value)
    decreases x
  {
    if IsLeaf(x) {
      assert Paths(x)[..0] == [];
    } else {
      UncoveredAllKeepsLeaves(x.kids, marks);
      KeptUnder(LabelOf(x), Below(x.kids), marks);
    }
  }

  lemma {:induction false} UncoveredAllKeepsLeaves(xs: seq<Entry>, marks: set<Element>)
    ensures Below(UncoveredAll(xs, marks)) == Kept(Below(xs), marks)
    ensures UncoveredAll(xs, marks) == [] <==> Kept(Below(xs), marks) == []
    ensures forall y | y in UncoveredAll(xs, marks) :: Lean(y)
    decreases xs
  {
    if xs != [] {
      var init, last := xs[..|xs| - 1], xs[|xs| - 1];
      var kept := UncoveredAll(init, marks);
      UncoveredAllKeepsLeaves(init, marks);
      UncoveredKeepsLeaves(last, marks);
      hide Uncovered, Kept, Paths, Lean;
      KeptConcat(Below(init), Paths(last), marks);
      assert Kept(Below(xs), marks) == Kept(Below(init), marks) + Kept(Paths(last), marks);
      match Uncovered(last, marks) {
        case None =>
          assert UncoveredAll(xs, marks) == kept;
        case Some(y) =>
          assert UncoveredAll(xs, marks) == kept + [y];
          BelowSnoc(kept, y);
      }
    }
  }

  lemma BelowSnoc(xs: seq<Entry>, y: Entry)
    ensures Below(xs + [y]) == Below(xs) + Paths(y)
  {
    assert (xs + [y])[..|xs|] == xs;
  }

  // ----- grouping procs under types

  predicate Belongs(p: Element, t: Element) {
    |p.attached| == 1 && p.attached[0] == t.text
  }

  /** The procs that one pass over `procs` puts under `t`, when `marks` are marked before it. */
  function Taken(t: Element, procs: seq<Element>, marks: set<Element>): seq<Element> {
    if procs == [] then []
    else
      var p := procs[|procs| - 1];
      var rest := Taken(t, procs[..|procs| - 1], marks);
      if p !in marks && p !in rest && Belongs(p, t) then rest + [p] else rest
  }

  function Elements(s: seq<Element>): set<Element> {
    set e | e in s
  }

  /** The marked elements after the passes for `types`. */
  function MarksAfter(types: seq<Element>, procs: seq<Element>, marks: set<Element>): set<Element> {
    if types == [] then marks
    else
      var t := types[|types| - 1];
      var before := MarksAfter(types[..|types| - 1], procs, marks) + {t};
      before + Elements(Taken(t, procs, before))
  }

  function Groups(types: seq<Element>, procs: seq<Element>, marks: set<Element>): (r: seq<seq<Element>>)
    ensures |r| == |types|
  {
    if types == [] then []
    else
      var t := types[|types| - 1];
      var init := types[..|types| - 1];
      Groups(init, procs, marks) + [Taken(t, procs, MarksAfter(init, procs, marks) + {t})]
  }

  function LinkTo(p: Element): Entry {
    Entry(Some(Link(p.title, p.href)), [], 0, false)
  }

  function TypeEntry(t: Element, procs: seq<Element>): Entry {
    Entry(Some(Clone(t)), seq(|procs|, i requires 0 <= i < |procs| => LinkTo(procs[i])), 0, true)
  }

  /** The entries for `types`, one each and in order. */
  function NewEntries(types: seq<Element>, procs: seq<Element>, marks: set<Element>): seq<Entry> {
    var groups := Groups(types, procs, marks);
    seq(|types|, k requires 0 <= k < |types| => TypeEntry(types[k], groups[k]))
  }

  function Merged(orig: Entry, news: Entry, marks: set<Element>): Entry {
    match Uncovered(orig, marks)
    case None => news
    case Some(kept) => kept.(kids := kept.kids + news.kids)
  }

  function Built(orig: Entry, types: seq<Element>, procs: seq<Element>, marks: set<Element>): Entry {
    Merged(orig, Entry(None, NewEntries(types, procs, marks), 0, true), MarksAfter(types, procs, marks))
  }

  method MergeTocs(orig: Entry, news: Entry, ghost page: set<Element>, ghost marks: set<Element>) returns (r: Entry)
    requires Marking(page, marks) && On(orig, page)
    ensures r == Merged(orig, news, marks)
  {
    var kept := FindUncovered(orig, page, marks);
    if kept.None? { return news; }
    r := kept.value;
    for i := 0 to |news.kids|
      invariant r == kept.value.(kids := kept.value.kids + news.kids[..i])
    {
      r := r.(kids := r.kids + [news.kids[i]]);
    }
    assert news.kids[..|news.kids|] == news.kids;
  }

  /** The pass for one type: marks it, then moves every unmarked proc that belongs to it below a copy of it. */
  method TypePass(t: Element, procs: seq<Element>, ghost page: set<Element>, ghost marks: set<Element>)
    returns (c: Entry)
    requires Marking(page, marks) && t in page && Elements(procs) <= page
    modifies t, Elements(procs)
    ensures c == TypeEntry(t, Taken(t, procs, marks + {t}))
    ensures var taken := Taken(t, procs, marks + {t});
            && c.heading == Some(Clone(t)) && |c.kids| == |taken|
            && forall i | 0 <= i < |taken| :: c.kids[i].heading == Some(Link(taken[i].title, taken[i].href))
    ensures Marking(page, marks + {t} + Elements(Taken(t, procs, marks + {t})))
  {
    c := Entry(Some(Clone(t)), [], 0, true);
    t.marked := true;
    ghost var taken: seq<Element> := [];
    for i := 0 to |procs|
      invariant taken == Taken(t, procs[..i], marks + {t})
      invariant c == TypeEntry(t, taken)
      invariant Marking(page, marks + {t} + Elements(taken))
    {
      var p := procs[i];
      assert p in Elements(procs);
      assert procs[..i + 1][..i] == procs[..i];
      if !p.marked {
        if |p.attached| == 1 && p.attached[0] == t.text {
          c := c.(kids := c.kids + [Entry(Some(Link(p.title, p.href)), [], 0, false)]);
          p.marked := true;
          taken := taken + [p];
        }
      }
    }
    assert procs[..|procs|] == procs;
  }

  lemma NoNewEntries(procs: seq<Element>, marks: set<Element>)
    ensures NewEntries([], procs, marks) == [] && MarksAfter([], procs, marks) == marks
  {
  }

  lemma NewEntriesNext(types: seq<Element>, procs: seq<Element>, marks: set<Element>)
    requires types != []
    ensures var t, init := types[|types| - 1], types[..|types| - 1];
            var before := MarksAfter(init, procs, marks) + {t};
            && NewEntries(types, procs, marks)
               == NewEntries(init, procs, marks) + [TypeEntry(t, Taken(t, procs, before))]
            && MarksAfter(types, procs, marks) == before + Elements(Taken(t, procs, before))
  {
    hide Taken, MarksAfter;
    MarksNext(types, procs, marks);
  }

  lemma MarksNext(types: seq<Element>, procs: seq<Element>, marks: set<Element>)
    requires types != []
    ensures var t, init := types[|types| - 1], types[..|types| - 1];
            var before := MarksAfter(init, procs, marks) + {t};
            MarksAfter(types, procs, marks) == before + Elements(Taken(t, procs, before))
  {
    hide Taken;
  }

  method BuildToc(orig: Entry, types: seq<Element>, procs: seq<Element>,
                  ghost page: set<Element>, ghost marks: set<Element>)
    returns (r: Entry)
    requires Marking(page, marks) && On(orig, page) && Elements(types) <= page && Elements(procs) <= page
    modifies Elements(types), Elements(procs)
    ensures r == Built(orig, types, procs, marks)
    ensures exists left, ats :: Regrouped(orig, types, procs, marks, r, left, ats)
    ensures Marking(page, MarksAfter(types, procs, marks))
  {
    hide NewEntries, MarksAfter, Taken, Merged, Regrouped;
    var newStuff := Entry(None, [], 0, true);
    NoNewEntries(procs, marks);
    for k := 0 to |types|
      invariant newStuff == Entry(None, NewEntries(types[..k], procs, marks), 0, true)
      invariant Marking(page, MarksAfter(types[..k], procs, marks))
    {
      var c := TypePass(types[k], procs, page, MarksAfter(types[..k], procs, marks));
      assert types[..k + 1][..k] == types[..k];
      NewEntriesNext(types[..k + 1], procs, marks);
      newStuff := newStuff.(kids := newStuff.kids + [c]);
    }
    assert types[..|types|] == types;
    r := MergeTocs(orig, newStuff, page, MarksAfter(types, procs, marks));
    ghost var left, ats := TableRegrouped(orig, types, procs, marks);
  }

  // ----- what the grouping amounts to

  lemma {:induction false} TakenIff(t: Element, procs: seq<Element>, marks: set<Element>, p: Element)
    ensures p in Taken(t, procs, marks) <==> p in procs && p !in marks && Belongs(p, t)
  {
    if procs != [] {
      TakenIff(t, procs[..|procs| - 1], marks, p);
      assert procs == procs[..|procs| - 1] + [procs[|procs| - 1]];
    }
  }

  /** The position of the first occurrence. */
  function FirstAt(procs: seq<Element>, p: Element): (r: nat)
    requires p in procs
    ensures r < |procs| && procs[r] == p && forall k | 0 <= k < r :: procs[k] != p
  {
    if procs[0] == p then 0 else FirstAt(procs[1..], p) + 1
  }

  /** Each proc is taken once, in the order in which the procs first occur. */
  lemma {:induction false} TakenInOrder(t: Element, procs: seq<Element>, marks: set<Element>, i: nat, j: nat)
    requires i < j < |Taken(t, procs, marks)|
    ensures Taken(t, procs, marks)[i] in procs && Taken(t, procs, marks)[j] in procs
    ensures FirstAt(procs, Taken(t, procs, marks)[i]) < FirstAt(procs, Taken(t, procs, marks)[j])
  {
    var taken := Taken(t, procs, marks);
    TakenIff(t, procs, marks, taken[i]);
    TakenIff(t, procs, marks, taken[j]);
    var init := procs[..|procs| - 1];
    var rest := Taken(t, init, marks);
    TakenIff(t, init, marks, taken[i]);
    TakenIff(t, init, marks, taken[j]);
    FirstAtInit(procs, taken[i]);
    if j < |rest| {
      TakenInOrder(t, init, marks, i, j);
      FirstAtInit(procs, taken[j]);
    } else {
      assert taken[j] !in init;
      assert procs[FirstAt(procs, taken[j])] == taken[j];
    }
  }

  lemma FirstAtInit(procs: seq<Element>, p: Element)
    requires procs != [] && p in procs[..|procs| - 1]
    ensures p in procs && FirstAt(procs, p) == FirstAt(procs[..|procs| - 1], p) < |procs| - 1
  {
    hide FirstAt;
    var i := FirstAt(procs[..|procs| - 1], p);
    assert procs[i] == p;
    var j := FirstAt(procs, p);
    assert j <= i;
    assert procs[..|procs| - 1][j] == procs[j];
  }

  lemma {:induction false} MarkedIff(types: seq<Element>, procs: seq<Element>, marks: set<Element>, e: Element)
    ensures e in MarksAfter(types, procs, marks)
            <==> e in marks || e in types || (e in procs && exists t | t in types :: Belongs(e, t))
  {
    if types != [] {
      var t, init := types[|types| - 1], types[..|types| - 1];
      assert types == init + [t];
      MarkedIff(init, procs, marks, e);
      TakenIff(t, procs, MarksAfter(init, procs, marks) + {t}, e);
    }
  }

  /** `p` belongs to the k-th type and to none before it. */
  predicate FirstType(p: Element, types: seq<Element>, k: nat)
    requires k < |types|
  {
    Belongs(p, types[k]) && forall j | 0 <= j < k :: !Belongs(p, types[j])
  }

  /**
     A proc is put under exactly the first type it belongs to, unless it was
     marked before or is itself a type that has been passed by then.
     */
  lemma {:induction false} ListedIff(types: seq<Element>, procs: seq<Element>, marks: set<Element>, k: nat, p: Element)
    requires k < |types|
    ensures p in Groups(types, procs, marks)[k]
            <==> p in procs && p !in marks && p !in types[..k + 1] && FirstType(p, types, k)
    decreases |types|
  {
    hide Taken;
    var n := |types| - 1;
    var t, init := types[n], types[..n];
    if k < n {
      ListedIff(init, procs, marks, k, p);
      assert init[..k + 1] == types[..k + 1];
      assert forall j | 0 <= j <= k :: init[j] == types[j];
    } else {
      MarkedIff(init, procs, marks, p);
      TakenIff(t, procs, MarksAfter(init, procs, marks) + {t}, p);
      assert types[..k + 1] == init + [t];
      assert forall j | 0 <= j < k :: init[j] == types[j];
    }
  }

  // ----- the new table

  lemma {:induction false} BelowConcat(a: seq<Entry>, b: seq<Entry>)
    ensures Below(a + b) == Below(a) + Below(b)
    decreases |b|
  {
    if b == [] {
      assert a + b == a;
    } else {
      assert (a + b)[..|a + b| - 1] == a + b[..|b| - 1];
      BelowConcat(a, b[..|b| - 1]);
    }
  }

  /** Below its root the new table is the old one without the marked leaves, followed by one entry for every type. */
  lemma BuiltBelow(orig: Entry, types: seq<Element>, procs: seq<Element>, marks: set<Element>)
    ensures Below(Built(orig, types, procs, marks).kids)
            == Kept(Below(orig.kids), MarksAfter(types, procs, marks)) + Below(NewEntries(types, procs, marks))
  {
    var after, news := MarksAfter(types, procs, marks), NewEntries(types, procs, marks);
    if IsLeaf(orig) {
      assert [] + news == news;
    } else {
      UncoveredAllKeepsLeaves(orig.kids, after);
      BelowConcat(UncoveredAll(orig.kids, after), news);
    }
  }

  /** The root itself gets lost in one case only: when it is an unmarked leaf, merging gives it kids. */
  lemma RootKeptIff(orig: Entry, types: seq<Element>, procs: seq<Element>, marks: set<Element>)
    ensures |Paths(Built(orig, types, procs, marks))|
            == |Kept(Paths(orig), MarksAfter(types, procs, marks))| + |Below(NewEntries(types, procs, marks))|
            <==> types == [] || !IsLeaf(orig) || Covered(orig.heading.value, MarksAfter(types, procs, marks))
  {
    var after, news := MarksAfter(types, procs, marks), NewEntries(types, procs, marks);
    BuiltBelow(orig, types, procs, marks);
    UncoveredKeepsLeaves(orig, after);
    if IsLeaf(orig) {
      assert Paths(orig)[..0] == [];
      assert |Kept(Paths(orig), after)| == if Covered(orig.heading.value, after) then 0 else 1;
    } else {
      KeptUnder(LabelOf(orig), Below(orig.kids), after);
      UncoveredAllKeepsLeaves(orig.kids, after);
    }
  }

  // ----- the table that is returned

  /** The entry has a copy of `t` for its heading, and a link for each proc at these positions, in order. */
  ghost predicate Lists(x: Entry, t: Element, procs: seq<Element>, at: seq<nat>) {
    && x.heading == Some(Clone(t)) && x.sortId == 0 && x.doSort && |x.kids| == |at|
    && (forall i, j | 0 <= i < j < |at| :: at[i] < at[j])
    && (forall i | 0 <= i < |at| ::
          && at[i] < |procs|
          && x.kids[i] == Entry(Some(Link(procs[at[i]].title, procs[at[i]].href)), [], 0, false))
  }

  /** The only type that `p` names is the `k`-th, and that is the first one of its text. */
  predicate FirstOf(p: Element, types: seq<Element>, k: nat)
    requires k < |types|
  {
    p.attached == [types[k].text] && forall i | 0 <= i < k :: p.attached != [types[i].text]
  }

  /** The first occurrence of a proc that was not marked and has the `k`-th type for its first one. */
  predicate ListedUnder(types: seq<Element>, procs: seq<Element>, marks: set<Element>, k: nat, j: nat)
    requires k < |types|
  {
    && j < |procs| && (forall i | 0 <= i < j :: procs[i] != procs[j])
    && procs[j] !in marks && procs[j] !in types[..k + 1]
    && FirstOf(procs[j], types, k)
  }

  /** What leaves the old part: what was marked, the types, and the procs of some type. */
  predicate Leaving(types: seq<Element>, procs: seq<Element>, marks: set<Element>, e: Element) {
    e in marks || e in types || (e in procs && exists t | t in types :: e.attached == [t.text])
  }

  /** The leaf is an element that leaves. */
  predicate Goes(types: seq<Element>, procs: seq<Element>, marks: set<Element>, path: seq<Label>) {
    var h := LeafOf(path);
    h.Some? && h.value.Page? && Leaving(types, procs, marks, h.value.node)
  }

  /** A path of a table to page element `e`. */
  predicate LeadsTo(path: seq<Label>, e: Element) {
    path != [] && path[|path| - 1].heading == Some(Page(e))
  }

  /**
     `r` is an old part, the leaves of the old table that do not leave, in order,
     and then one entry for each type, which lists the procs at the positions
     `ats[k]`: exactly those that have it for their first type, once and in order.
     The root stays as it was unless nothing is left below it.
     */
  ghost predicate Regrouped(orig: Entry, types: seq<Element>, procs: seq<Element>, marks: set<Element>,
                            r: Entry, left: seq<nat>, ats: seq<seq<nat>>)
  {
    && (!IsLeaf(orig) ==> LabelOf(r) == if left == [] then Label(None, 0, true) else LabelOf(orig))
    && |ats| == |types| <= |r.kids|
    && var m := |r.kids| - |types|;
       && (forall k | 0 <= k < |types| :: Lists(r.kids[m + k], types[k], procs, ats[k]))
       && (forall k, j: nat | 0 <= k < |types| :: j in ats[k] <==> ListedUnder(types, procs, marks, k, j))
       && Picks(Below(r.kids[..m]), Below(orig.kids), left)
       && (forall j: nat :: j in left
             <==> j < |Below(orig.kids)| && !Goes(types, procs, marks, Below(orig.kids)[j]))
  }

  lemma BelongsIff(p: Element, t: Element)
    ensures Belongs(p, t) <==> p.attached == [t.text]
  {
  }

  /** Where the procs of one group first occur. */
  function Positions(procs: seq<Element>, group: seq<Element>): (at: seq<nat>)
    requires forall e | e in group :: e in procs
    ensures |at| == |group| && forall i | 0 <= i < |at| :: at[i] == FirstAt(procs, group[i])
  {
    seq(|group|, i requires 0 <= i < |group| => assert group[i] in group; FirstAt(procs, group[i]))
  }

  lemma {:induction false} GroupIs(types: seq<Element>, procs: seq<Element>, marks: set<Element>, k: nat)
    requires k < |types|
    ensures var t := types[k];
            Groups(types, procs, marks)[k] == Taken(t, procs, MarksAfter(types[..k], procs, marks) + {t})
    decreases |types|
  {
    hide Taken, MarksAfter;
    var init := types[..|types| - 1];
    if k < |types| - 1 {
      GroupIs(init, procs, marks, k);
      assert init[..k] == types[..k];
    }
  }

  lemma GroupOfProcs(types: seq<Element>, procs: seq<Element>, marks: set<Element>, k: nat)
    requires k < |types|
    ensures forall e | e in Groups(types, procs, marks)[k] :: e in procs
  {
    hide Groups, FirstType;
    forall e | e in Groups(types, procs, marks)[k] ensures e in procs {
      ListedIff(types, procs, marks, k, e);
    }
  }

  lemma GroupListed(types: seq<Element>, procs: seq<Element>, marks: set<Element>, k: nat) returns (at: seq<nat>)
    requires k < |types|
    ensures Lists(TypeEntry(types[k], Groups(types, procs, marks)[k]), types[k], procs, at)
    ensures forall j: nat :: j in at <==> ListedUnder(types, procs, marks, k, j)
  {
    hide Groups, Taken, MarksAfter, ListedUnder, FirstAt;
    var group := Groups(types, procs, marks)[k];
    GroupOfProcs(types, procs, marks, k);
    GroupIs(types, procs, marks, k);
    at := Positions(procs, group);
    forall i, j | 0 <= i < j < |at| ensures at[i] < at[j] {
      TakenInOrder(types[k], procs, MarksAfter(types[..k], procs, marks) + {types[k]}, i, j);
    }
    forall i | 0 <= i < |at| ensures at[i] < |procs| && procs[at[i]] == group[i] {
      assert group[i] in group;
    }
    forall j: nat ensures j in at <==> ListedUnder(types, procs, marks, k, j) {
      PositionListed(types, procs, marks, k, at, j);
    }
  }

  lemma PositionListed(types: seq<Element>, procs: seq<Element>, marks: set<Element>, k: nat, at: seq<nat>, j: nat)
    requires k < |types| && forall e | e in Groups(types, procs, marks)[k] :: e in procs
    requires at == Positions(procs, Groups(types, procs, marks)[k])
    ensures j in at <==> ListedUnder(types, procs, marks, k, j)
  {
    hide Groups, FirstAt;
    var group := Groups(types, procs, marks)[k];
    if j in at {
      var i :| 0 <= i < |at| && at[i] == j;
      assert group[i] in group && procs[j] == group[i];
    }
    if j < |procs| {
      ListedIff(types, procs, marks, k, procs[j]);
      FirstTypeIff(procs[j], types, k);
      if ListedUnder(types, procs, marks, k, j) {
        var i :| 0 <= i < |group| && group[i] == procs[j];
        FirstIs(procs, j);
        assert at[i] == j;
      }
    }
  }

  lemma FirstIs(procs: seq<Element>, j: nat)
    requires j < |procs| && forall i | 0 <= i < j :: procs[i] != procs[j]
    ensures FirstAt(procs, procs[j]) == j
  {
    hide FirstAt;
    var f := FirstAt(procs, procs[j]);
    assert f <= j;
  }

  lemma FirstTypeIff(p: Element, types: seq<Element>, k: nat)
    requires k < |types|
    ensures FirstType(p, types, k) <==> FirstOf(p, types, k)
  {
    forall i | 0 <= i <= k ensures Belongs(p, types[i]) <==> p.attached == [types[i].text] {
      BelongsIff(p, types[i]);
    }
  }

  lemma BuiltKids(orig: Entry, types: seq<Element>, procs: seq<Element>, marks: set<Element>)
    ensures var r := Built(orig, types, procs, marks);
            && |r.kids| >= |types|
            && r.kids[|r.kids| - |types|..] == NewEntries(types, procs, marks)
            && Below(r.kids[..|r.kids| - |types|]) == Kept(Below(orig.kids), MarksAfter(types, procs, marks))
  {
    hide MarksAfter, Kept;
    var after, news := MarksAfter(types, procs, marks), NewEntries(types, procs, marks);
    var r := Built(orig, types, procs, marks);
    var old_ := if IsLeaf(orig) then [] else UncoveredAll(orig.kids, after);
    UncoveredAllKeepsLeaves(orig.kids, after);
    assert r.kids == old_ + news;
    assert r.kids[..|old_|] == old_;
  }

  lemma PicksAsMany(picked: seq<seq<Label>>, all: seq<seq<Label>>, at: seq<nat>)
    requires Picks(picked, all, at)
    ensures picked == [] <==> at == []
  {
  }

  lemma BuiltRoot(orig: Entry, types: seq<Element>, procs: seq<Element>, marks: set<Element>)
    requires !IsLeaf(orig)
    ensures LabelOf(Built(orig, types, procs, marks))
         == if Kept(Below(orig.kids), MarksAfter(types, procs, marks)) == [] then Label(None, 0, true)
            else LabelOf(orig)
  {
    hide MarksAfter, Kept;
    UncoveredAllKeepsLeaves(orig.kids, MarksAfter(types, procs, marks));
  }

  /** What is kept of the old part, by the headings of its leaves. */
  lemma GoesIff(types: seq<Element>, procs: seq<Element>, marks: set<Element>, path: seq<Label>)
    ensures EndsCovered(path, MarksAfter(types, procs, marks)) <==> Goes(types, procs, marks, path)
  {
    hide MarksAfter, Belongs;
    var h := LeafOf(path);
    if h.Some? && h.value.Page? {
      var e := h.value.node;
      MarkedIff(types, procs, marks, e);
      forall t | t in types ensures Belongs(e, t) <==> e.attached == [t.text] {
        BelongsIff(e, t);
      }
    }
  }

  lemma OldPart(orig: Entry, types: seq<Element>, procs: seq<Element>, marks: set<Element>)
    returns (left: seq<nat>)
    ensures var r, all := Built(orig, types, procs, marks), Below(orig.kids);
            && |types| <= |r.kids| && Picks(Below(r.kids[..|r.kids| - |types|]), all, left)
            && (forall j: nat :: j in left <==> j < |all| && !Goes(types, procs, marks, all[j]))
            && (!IsLeaf(orig) ==> LabelOf(r) == if left == [] then Label(None, 0, true) else LabelOf(orig))
  {
    hide Built, Kept, MarksAfter, Goes, NewEntries, Below, Picks, EndsCovered;
    BuiltKids(orig, types, procs, marks);
    if !IsLeaf(orig) { BuiltRoot(orig, types, procs, marks); }
    var all := Below(orig.kids);
    left := KeptPicks(all, MarksAfter(types, procs, marks));
    PicksAsMany(Kept(all, MarksAfter(types, procs, marks)), all, left);
    forall j: nat | j < |all|
      ensures EndsCovered(all[j], MarksAfter(types, procs, marks)) <==> Goes(types, procs, marks, all[j])
    {
      GoesIff(types, procs, marks, all[j]);
    }
  }

  lemma NewPart(orig: Entry, types: seq<Element>, procs: seq<Element>, marks: set<Element>, k: nat)
    requires k < |types|
    ensures var r := Built(orig, types, procs, marks);
            |types| <= |r.kids|
            && r.kids[|r.kids| - |types| + k] == TypeEntry(types[k], Groups(types, procs, marks)[k])
  {
    hide Built, Kept, MarksAfter, Groups, TypeEntry, Below;
    var r := Built(orig, types, procs, marks);
    BuiltKids(orig, types, procs, marks);
    assert r.kids[|r.kids| - |types|..][k] == NewEntries(types, procs, marks)[k];
  }

  /** The table that `buildToc` returns, entry by entry. */
  lemma TableRegrouped(orig: Entry, types: seq<Element>, procs: seq<Element>, marks: set<Element>)
    returns (left: seq<nat>, ats: seq<seq<nat>>)
    ensures |ats| == |types| && Regrouped(orig, types, procs, marks, Built(orig, types, procs, marks), left, ats)
  {
    hide Built, Lists, ListedUnder, Goes, Groups, TypeEntry, Below, Picks;
    left := OldPart(orig, types, procs, marks);
    ats := AllListed(types, procs, marks, |types|);
    forall k | 0 <= k < |types|
      ensures var r := Built(orig, types, procs, marks);
              Lists(r.kids[|r.kids| - |types| + k], types[k], procs, ats[k])
    {
      NewPart(orig, types, procs, marks, k);
    }
  }

  lemma {:induction false} AllListed(types: seq<Element>, procs: seq<Element>, marks: set<Element>, n: nat)
    returns (ats: seq<seq<nat>>)
    requires n <= |types|
    ensures |ats| == n
    ensures forall k | 0 <= k < n ::
              Lists(TypeEntry(types[k], Groups(types, procs, marks)[k]), types[k], procs, ats[k])
    ensures forall k, j: nat | 0 <= k < n :: j in ats[k] <==> ListedUnder(types, procs, marks, k, j)
  {
    hide Lists, ListedUnder, Groups, TypeEntry;
    ats := [];
    if n > 0 {
      var rest := AllListed(types, procs, marks, n - 1);
      var at := GroupListed(types, procs, marks, n - 1);
      ats := rest + [at];
    }
  }

  /**
     Conservation: a proc that is neither marked nor a type is either left in the
     old part, wherever it was, and listed nowhere; or it is taken out of it
     everywhere and has its link under exactly one type, the first it belongs to.
     */
  lemma ProcConserved(orig: Entry, types: seq<Element>, procs: seq<Element>, marks: set<Element>, p: Element)
    returns (left: seq<nat>, ats: seq<seq<nat>>)
    requires p in procs && p !in marks && p !in types
    ensures |ats| == |types| && Regrouped(orig, types, procs, marks, Built(orig, types, procs, marks), left, ats)
    ensures var oldPart := Below(OldKids(Built(orig, types, procs, marks), |types|));
            if exists t | t in types :: p.attached == [t.text] then
              && (exists k | 0 <= k < |types| :: FirstOf(p, types, k) && FirstAt(procs, p) in ats[k])
              && (forall k | 0 <= k < |types| :: FirstAt(procs, p) in ats[k] <==> FirstOf(p, types, k))
              && (forall path | path in oldPart :: !LeadsTo(path, p))
            else
              && (forall k | 0 <= k < |types| :: FirstAt(procs, p) !in ats[k])
              && (forall path | path in Below(orig.kids) && LeadsTo(path, p) :: path in oldPart)
  {
    hide Built, Below, Lists, ListedUnder, Regrouped, FirstAt;
    left, ats := TableRegrouped(orig, types, procs, marks);
    var r := Built(orig, types, procs, marks);
    forall k | 0 <= k < |types| ensures FirstAt(procs, p) in ats[k] <==> FirstOf(p, types, k) {
      ProcListedIff(orig, types, procs, marks, r, left, ats, p, k);
    }
    LeavesOrStays(orig, types, procs, marks, r, left, ats, p);
    if t :| t in types && p.attached == [t.text] {
      FirstOfExists(p, types, t);
    }
  }

  /** The old part of a table in which each type has an entry. */
  function OldKids(r: Entry, n: nat): seq<Entry> { if n <= |r.kids| then r.kids[..|r.kids| - n] else [] }

  lemma ProcListedIff(orig: Entry, types: seq<Element>, procs: seq<Element>, marks: set<Element>,
                      r: Entry, left: seq<nat>, ats: seq<seq<nat>>, p: Element, k: nat)
    requires Regrouped(orig, types, procs, marks, r, left, ats) && k < |types|
    requires p in procs && p !in marks && p !in types
    ensures FirstAt(procs, p) in ats[k] <==> FirstOf(p, types, k)
  {
    hide Below, Lists, Goes, FirstOf, FirstAt;
    var j := FirstAt(procs, p);
    assert j in ats[k] <==> ListedUnder(types, procs, marks, k, j);
  }

  lemma LeavesOrStays(orig: Entry, types: seq<Element>, procs: seq<Element>, marks: set<Element>,
                      r: Entry, left: seq<nat>, ats: seq<seq<nat>>, p: Element)
    requires Regrouped(orig, types, procs, marks, r, left, ats)
    requires p in procs && p !in marks && p !in types
    ensures var oldPart := Below(OldKids(r, |types|));
            if exists t | t in types :: p.attached == [t.text] then
              forall path | path in oldPart :: !LeadsTo(path, p)
            else forall path | path in Below(orig.kids) && LeadsTo(path, p) :: path in oldPart
  {
    hide Below, Lists, ListedUnder;
    var all, oldPart := Below(orig.kids), Below(OldKids(r, |types|));
    forall path | path in oldPart && LeadsTo(path, p)
      ensures !Goes(types, procs, marks, path)
    {
      var i :| 0 <= i < |oldPart| && oldPart[i] == path;
      assert left[i] in left;
    }
    forall path | path in all && LeadsTo(path, p) && !Goes(types, procs, marks, path)
      ensures path in oldPart
    {
      var j: nat :| j < |all| && all[j] == path;
      var i :| 0 <= i < |left| && left[i] == j;
      assert oldPart[i] == path;
    }
  }

  lemma {:induction false} FirstOfExists(p: Element, types: seq<Element>, t: Element)
    requires t in types && p.attached == [t.text]
    ensures exists k | 0 <= k < |types| :: FirstOf(p, types, k)
  {
    var k: nat :| k < |types| && types[k] == t;
    var i := 0;
    while p.attached != [types[i].text]
      invariant 0 <= i <= k
      invariant forall j | 0 <= j < i :: p.attached != [types[j].text]
      decreases k - i
    {
      i := i + 1;
    }
    assert FirstOf(p, types, i);
  }

  // ----- grouping by type

  const PROCS := ["Procs", "Converters", "Methods", "Templates", "Macros", "Iterators"]

  /** Every heading is an element of the page, as in a table that was read from one. */
  predicate FromPage(x: Entry)
    decreases x
  {
    (x.heading.Some? ==> x.heading.value.Page?) && forall k | k in x.kids :: FromPage(k)
  }

  predicate AllPage(items: seq<Option<Heading>>) {
    forall i | 0 <= i < |items| :: items[i].Some? && items[i].value.Page?
  }

  function Nodes(items: seq<Option<Heading>>): seq<Element>
    requires AllPage(items)
  {
    seq(|items|, i requires 0 <= i < |items| => items[i].value.node)
  }

  /** The table grouped by type, if no item that it looks at lacks a heading. */
  function Grouped(orig: Entry, marks: set<Element>): Option<Entry> {
    var types, procs := Items(orig, "Types"), ItemsOf(orig, PROCS);
    if !AllPage(types) then None
    else if types == [] then Some(Built(orig, [], [], marks))
    else if !AllPage(procs) then None
    else Some(Built(orig, Nodes(types), Nodes(procs), marks))
  }

  /** The items that are moved: those of six groups, one group after the other. */
  function ProcItems(x: Entry): seq<Option<Heading>> {
    Items(x, "Procs") + Items(x, "Converters") + Items(x, "Methods")
    + Items(x, "Templates") + Items(x, "Macros") + Items(x, "Iterators")
  }

  lemma ProcItemsOf(x: Entry)
    ensures ItemsOf(x, PROCS) == ProcItems(x)
  {
    hide Items;
    var a, b, c := ["Procs"], ["Procs", "Converters"], ["Procs", "Converters", "Methods"];
    var d, e := c + ["Templates"], c + ["Templates", "Macros"];
    assert PROCS[..5] == e && e[..4] == d && d[..3] == c && c[..2] == b && b[..1] == a && a[..0] == [];
    assert ItemsOf(x, a) == [] + Items(x, "Procs") == Items(x, "Procs");
    assert ItemsOf(x, b) == ItemsOf(x, a) + Items(x, "Converters");
    assert ItemsOf(x, c) == ItemsOf(x, b) + Items(x, "Methods");
    assert ItemsOf(x, d) == ItemsOf(x, c) + Items(x, "Templates");
    assert ItemsOf(x, e) == ItemsOf(x, d) + Items(x, "Macros");
  }

  /**
     What `groupBy` shows: the table itself regrouped by its own types and procs.
     It fails exactly if a type has no heading, or there are types and a proc has
     none.
     */
  lemma GroupedTable(orig: Entry, marks: set<Element>) returns (left: seq<nat>, ats: seq<seq<nat>>)
    ensures Grouped(orig, marks).Some?
       <==> AllPage(Items(orig, "Types")) && (Items(orig, "Types") == [] || AllPage(ProcItems(orig)))
    ensures Grouped(orig, marks).Some?
            ==> var types := Nodes(Items(orig, "Types"));
                var procs := if types == [] then [] else Nodes(ProcItems(orig));
                |ats| == |types| && Regrouped(orig, types, procs, marks, Grouped(orig, marks).value, left, ats)
  {
    hide Items, ItemsOf, Built, Regrouped, ProcItems;
    ProcItemsOf(orig);
    if Grouped(orig, marks).Some? {
      var types := Nodes(Items(orig, "Types"));
      var procs := if types == [] then [] else Nodes(ProcItems(orig));
      assert Grouped(orig, marks).value == Built(orig, types, procs, marks);
      left, ats := TableRegrouped(orig, types, procs, marks);
    } else {
      left, ats := [], [];
    }
  }

  function LeafOf(path: seq<Label>): Option<Heading> {
    if path == [] then None else path[|path| - 1].heading
  }

  /** The headings of the leaves, in order. */
  function Leaves(paths: seq<seq<Label>>): seq<Option<Heading>> {
    seq(|paths|, i requires 0 <= i < |paths| => LeafOf(paths[i]))
  }

  lemma LeafHasNoItems(x: Entry, title: string)
    requires IsLeaf(x)
    ensures Items(x, title) == []
  {
  }

  lemma LeafStays(x: Entry, procs: seq<Element>, marks: set<Element>)
    requires IsLeaf(x)
    ensures MarksAfter([], procs, marks) == marks && Below(NewEntries([], procs, marks)) == []
    ensures Paths(Built(x, [], procs, marks)) == Kept(Paths(x), marks)
  {
    UncoveredKeepsLeaves(x, marks);
    assert [] + NewEntries([], procs, marks) == [];
  }

  lemma LeavesUnder(l: Label, paths: seq<seq<Label>>)
    requires forall i | 0 <= i < |paths| :: paths[i] != []
    ensures Leaves(Under(l, paths)) == Leaves(paths)
  {
    forall i | 0 <= i < |paths|
      ensures Leaves(Under(l, paths))[i] == Leaves(paths)[i]
    {
      assert Under(l, paths)[i] == [l] + paths[i];
    }
  }

  lemma KeptNonEmpty(paths: seq<seq<Label>>, marks: set<Element>)
    requires forall i | 0 <= i < |paths| :: paths[i] != []
    ensures forall i | 0 <= i < |Kept(paths, marks)| :: Kept(paths, marks)[i] != []
  {
    forall i | 0 <= i < |Kept(paths, marks)|
      ensures Kept(paths, marks)[i] != []
    {
      assert Kept(paths, marks)[i] in paths;
    }
  }

  lemma LeavesConcat(a: seq<seq<Label>>, b: seq<seq<Label>>)
    ensures Leaves(a + b) == Leaves(a) + Leaves(b)
  {
  }

  /**
     A table whose types are its own items never loses a leaf to its new entries,
     whatever its root: the grouped one has all the leaves that are not marked, in
     order, and then those of the entries for the types.
     */
  lemma GroupedKeepsLeaves(orig: Entry, types: seq<Element>, procs: seq<Element>, marks: set<Element>)
    requires AllPage(Items(orig, "Types")) && types == Nodes(Items(orig, "Types"))
    ensures Leaves(Paths(Built(orig, types, procs, marks)))
            == Leaves(Kept(Paths(orig), MarksAfter(types, procs, marks)))
               + Leaves(Below(NewEntries(types, procs, marks)))
  {
    hide Kept, Items, MarksAfter, Leaves, LeafOf;
    var after, news := MarksAfter(types, procs, marks), NewEntries(types, procs, marks);
    var built := Built(orig, types, procs, marks);
    BuiltBelow(orig, types, procs, marks);
    UncoveredKeepsLeaves(orig, after);
    if IsLeaf(orig) {
      LeafHasNoItems(orig, "Types");
      LeafStays(orig, procs, marks);
      LeavesConcat(Kept(Paths(orig), after), []);
      assert Kept(Paths(orig), after) + [] == Kept(Paths(orig), after);
    } else {
      KeptUnder(LabelOf(orig), Below(orig.kids), after);
      KeptNonEmpty(Below(orig.kids), after);
      LeavesUnder(LabelOf(orig), Kept(Below(orig.kids), after));
      LeavesConcat(Kept(Below(orig.kids), after), Below(news));
      LeavesUnder(LabelOf(built), Below(built.kids));
    }
  }

  predicate ItemsOn(items: seq<Option<Heading>>, page: set<Element>) {
    forall h | h in items && h.Some? && h.value.Page? :: h.value.node in page
  }

  lemma {:induction false} ItemsOnPage(x: Entry, title: string, page: set<Element>)
    requires On(x, page)
    ensures ItemsOn(Items(x, title), page)
    decreases x
  {
    if Titled(x, title) {
      forall h | h in Items(x, title)
        ensures ItemsOn([h], page)
      {
        var i :| 0 <= i < |x.kids| && x.kids[i].heading == h;
        assert On(x.kids[i], page);
      }
      assert forall h | h in Items(x, title) :: ItemsOn([h], page) && h in [h];
    } else {
      ItemsBelowOnPage(x.kids, title, page);
    }
  }

  lemma {:induction false} ItemsBelowOnPage(xs: seq<Entry>, title: string, page: set<Element>)
    requires forall k | k in xs :: On(k, page)
    ensures ItemsOn(ItemsBelow(xs, title), page)
    decreases xs
  {
    if xs != [] {
      ItemsBelowOnPage(xs[..|xs| - 1], title, page);
      ItemsOnPage(xs[|xs| - 1], title, page);
    }
  }

  lemma {:induction false} ItemsOfOnPage(x: Entry, titles: seq<string>, page: set<Element>)
    requires On(x, page)
    ensures ItemsOn(ItemsOf(x, titles), page)
  {
    if titles != [] {
      ItemsOfOnPage(x, titles[..|titles| - 1], page);
      ItemsOnPage(x, titles[|titles| - 1], page);
    }
  }

  lemma NodesOnPage(items: seq<Option<Heading>>, page: set<Element>)
    requires AllPage(items) && ItemsOn(items, page)
    ensures Elements(Nodes(items)) <= page
  {
    forall e | e in Nodes(items)
      ensures e in page
    {
      var i :| 0 <= i < |items| && Nodes(items)[i] == e;
      assert items[i] in items;
    }
  }

  /** The grouping itself: the items of the table and the table that `buildToc` makes of them. */
  method GroupBy(orig: Entry, ghost page: set<Element>, ghost marks: set<Element>) returns (r: Option<Entry>)
    requires Marking(page, marks) && On(orig, page) && FromPage(orig)
    modifies page
    ensures r == Grouped(orig, marks)
  {
    var types := ExtractItems(orig, "Types", []);
    var procs: seq<Option<Heading>> := [];
    for k := 0 to |PROCS|
      invariant procs == ItemsOf(orig, PROCS[..k]) && Marking(page, marks)
    {
      procs := ExtractItems(orig, PROCS[k], procs);
      assert PROCS[..k + 1][..k] == PROCS[..k];
    }
    assert PROCS[..|PROCS|] == PROCS;
    if !AllPage(types) || (types != [] && !AllPage(procs)) { return None; }
    ItemsOnPage(orig, "Types", page);
    ItemsOfOnPage(orig, PROCS, page);
    NodesOnPage(types, page);
    if types != [] { NodesOnPage(procs, page); }
    assert types == Items(orig, "Types") && Nodes([]) == [];
    var t := BuildToc(orig, Nodes(types), if types == [] then [] else Nodes(procs), page, marks);
    r := Some(t);
  }
}
