/** The listing of the application-category forest (asm.py, `display_application_cats`
    and `print_sub_cat`): every top-level category unindented, each followed by its
    sub-categories one tab deeper, depth first, children in table order. */
module Categories {
  import opened Wrappers
  import opened Tables

  /** One printed line: `depth` tabs, then the category name. */
  datatype Line = Line(depth: nat, name: string)

  /** A category the listing reaches, and the number of tabs it is printed after. */
  datatype Visit = Visit(depth: nat, cat: ApplicationCategory)

  /** `select * from ApplicationCategory where SUPER_ID = ?` (or `IS NULL`), in table order. */
  function ChildrenOf(cats: seq<ApplicationCategory>, parent: Option<nat>): seq<ApplicationCategory>
  {
    if cats == [] then []
    else (if cats[0].parent == parent then [cats[0]] else []) + ChildrenOf(cats[1..], parent)
  }

  /** Every child returned is a category of the table with the given parent. */
  lemma {:induction false} ChildrenBelong(cats: seq<ApplicationCategory>, parent: Option<nat>)
    ensures forall i :: 0 <= i < |ChildrenOf(cats, parent)| ==>
              ChildrenOf(cats, parent)[i] in cats && ChildrenOf(cats, parent)[i].parent == parent
  {
    if cats != [] {
      ChildrenBelong(cats[1..], parent);
      var head := if cats[0].parent == parent then [cats[0]] else [];
      var kids := ChildrenOf(cats, parent);
      assert kids == head + ChildrenOf(cats[1..], parent);
      forall i | 0 <= i < |kids|
        ensures kids[i] in cats && kids[i].parent == parent
      {
        if i >= |head| {
          assert kids[i] == ChildrenOf(cats[1..], parent)[i - |head|];
        }
      }
    }
  }

  /** Every category with the given parent is among its children. */
  lemma {:induction false} ChildIndex(cats: seq<ApplicationCategory>, parent: Option<nat>, c: ApplicationCategory) returns (i: nat)
    requires c in cats && c.parent == parent
    ensures i < |ChildrenOf(cats, parent)| && ChildrenOf(cats, parent)[i] == c
    decreases |cats|
  {
    if cats[0] == c {
      i := 0;
    } else {
      var j := ChildIndex(cats[1..], parent, c);
      i := if cats[0].parent == parent then j + 1 else j;
    }
  }

  /** The categories `print_sub_cat` reaches, in the order it prints them: each of
      `kids` at `depth`, each followed by its own sub-categories one level deeper.
      The walk over the children of category `id` at depth `d` is `print_sub_cat(id)`
      called with `d` tabs. The program has no guard against a cycle of SUPER_ID
      links; `fuel` bounds the depth of the descent instead (a category at fuel 0 is
      printed, its children not). */
  function Visits(cats: seq<ApplicationCategory>, kids: seq<ApplicationCategory>, depth: nat, fuel: nat): seq<Visit>
    decreases fuel, |kids|
  {
    if kids == [] then []
    else
      [Visit(depth, kids[0])]
      + (if fuel == 0 then [] else Visits(cats, ChildrenOf(cats, Some(kids[0].id)), depth + 1, fuel - 1))
      + Visits(cats, kids[1..], depth, fuel)
  }

  /** Every one of `kids` is visited, the first one first at the given depth. */
  lemma {:induction false} VisitsCoverKids(cats: seq<ApplicationCategory>, kids: seq<ApplicationCategory>, depth: nat, fuel: nat)
    ensures |Visits(cats, kids, depth, fuel)| >= |kids|
    ensures kids != [] ==> Visits(cats, kids, depth, fuel)[0] == Visit(depth, kids[0])
    decreases |kids|
  {
    if kids != [] {
      VisitsCoverKids(cats, kids[1..], depth, fuel);
      var head := [Visit(depth, kids[0])];
      var below := if fuel == 0 then [] else Visits(cats, ChildrenOf(cats, Some(kids[0].id)), depth + 1, fuel - 1);
      var rest := Visits(cats, kids[1..], depth, fuel);
      assert Visits(cats, kids, depth, fuel) == head + below + rest;
    }
  }

  /** What a list of visits prints: one line per visit, in the same order. */
  function Lines(vs: seq<Visit>): seq<Line>
  {
    seq(|vs|, i requires 0 <= i < |vs| => Line(vs[i].depth, vs[i].cat.name))
  }

  /** The lines `print_sub_cat` prints for the walk over `kids`. */
  function Walk(cats: seq<ApplicationCategory>, kids: seq<ApplicationCategory>, depth: nat, fuel: nat): (r: seq<Line>)
    ensures |r| >= |kids|
    ensures kids != [] ==> r[0] == Line(depth, kids[0].name)
  {
    VisitsCoverKids(cats, kids, depth, fuel);
    Lines(Visits(cats, kids, depth, fuel))
  }

  /** The categories `display_application_cats()` reaches, with as much fuel as there
      are categories. */
  function ListingVisits(cats: seq<ApplicationCategory>): seq<Visit>
  {
    Visits(cats, ChildrenOf(cats, None), 0, |cats|)
  }

  /** `display_application_cats()`: the lines of the walk from the top-level categories. */
  function Listing(cats: seq<ApplicationCategory>): (r: seq<Line>)
    ensures |r| >= |ChildrenOf(cats, None)|
    ensures ChildrenOf(cats, None) != [] ==> r[0] == Line(0, ChildrenOf(cats, None)[0].name)
  {
    Walk(cats, ChildrenOf(cats, None), 0, |cats|)
  }

  /** `c` is `d` SUPER_ID links below a top-level category: a chain of parents,
      each found by its id, ends after `d` steps at a category without a parent.
      A category whose parent is missing, or that sits on a cycle, is at no depth. */
  ghost predicate AtDepth(cats: seq<ApplicationCategory>, c: ApplicationCategory, d: nat)
    decreases d
  {
    if d == 0 then c.parent == None
    else c.parent.Some? && exists j :: 0 <= j < |cats| && cats[j].id == c.parent.value && AtDepth(cats, cats[j], d - 1)
  }

  /** Every visit of `a` is also a visit of `b`. */
  ghost predicate Within(a: seq<Visit>, b: seq<Visit>)
  {
    forall v :: v in a ==> v in b
  }

  /** `vs` is `a`, then `b`, then `c`. */
  ghost predicate Joined(vs: seq<Visit>, a: seq<Visit>, b: seq<Visit>, c: seq<Visit>)
  {
    vs == a + b + c
  }

  /** One step of a walk that still has fuel: the first category, the walk over its
      children one level deeper, then the walk over the others. */
  lemma VisitsDescend(cats: seq<ApplicationCategory>, kids: seq<ApplicationCategory>, depth: nat, fuel: nat,
                      childDepth: nat, childFuel: nat)
    requires kids != [] && childDepth == depth + 1 && fuel > 0 && childFuel == fuel - 1
    ensures Joined(Visits(cats, kids, depth, fuel), [Visit(depth, kids[0])],
                   Visits(cats, ChildrenOf(cats, Some(kids[0].id)), childDepth, childFuel),
                   Visits(cats, kids[1..], depth, fuel))
  {
    var head, rest := [Visit(depth, kids[0])], Visits(cats, kids[1..], depth, fuel);
    var below := Visits(cats, ChildrenOf(cats, Some(kids[0].id)), depth + 1, fuel - 1);
    assert Visits(cats, kids, depth, fuel) == head + below + rest;
  }

  /** One step of a walk without fuel: the first category, then the others. */
  lemma VisitsStop(cats: seq<ApplicationCategory>, kids: seq<ApplicationCategory>, depth: nat)
    requires kids != []
    ensures Joined(Visits(cats, kids, depth, 0), [], [Visit(depth, kids[0])], Visits(cats, kids[1..], depth, 0))
    ensures Joined(Visits(cats, kids, depth, 0), [Visit(depth, kids[0])], Visits(cats, kids[1..], depth, 0), [])
  {
    var head, rest := [Visit(depth, kids[0])], Visits(cats, kids[1..], depth, 0);
    assert Visits(cats, kids, depth, 0) == head + [] + rest;
  }

  lemma WithinMiddle(a: seq<Visit>, b: seq<Visit>, c: seq<Visit>)
    ensures Within(a, a + b + c) && Within(b, a + b + c) && Within(c, a + b + c)
  {
  }

  /** The first of `kids` is visited by the walk over them, and so is the walk over
      its own children one level deeper. */
  lemma VisitsShowFirst(cats: seq<ApplicationCategory>, kids: seq<ApplicationCategory>, depth: nat, fuel: nat,
                        childDepth: nat, childFuel: nat)
    requires kids != [] && childDepth == depth + 1 && fuel > 0 && childFuel == fuel - 1
    ensures Visit(depth, kids[0]) in Visits(cats, kids, depth, fuel)
    ensures Within(Visits(cats, ChildrenOf(cats, Some(kids[0].id)), childDepth, childFuel), Visits(cats, kids, depth, fuel))
  {
    var below := Visits(cats, ChildrenOf(cats, Some(kids[0].id)), childDepth, childFuel);
    var rest := Visits(cats, kids[1..], depth, fuel);
    var head := [Visit(depth, kids[0])];
    VisitsDescend(cats, kids, depth, fuel, childDepth, childFuel);
    WithinMiddle(head, below, rest);
    assert head[0] in head;
  }

  /** A category among `kids` is visited by the walk over them, and so is the walk
      over its own children one level deeper. */
  lemma {:induction false} VisitsShowKid(cats: seq<ApplicationCategory>, kids: seq<ApplicationCategory>, depth: nat, fuel: nat,
                                         i: nat, childDepth: nat, childFuel: nat)
    requires i < |kids| && childDepth == depth + 1 && fuel > 0 && childFuel == fuel - 1
    ensures Visit(depth, kids[i]) in Visits(cats, kids, depth, fuel)
    ensures Within(Visits(cats, ChildrenOf(cats, Some(kids[i].id)), childDepth, childFuel), Visits(cats, kids, depth, fuel))
    decreases i
  {
    if i == 0 {
      VisitsShowFirst(cats, kids, depth, fuel, childDepth, childFuel);
    } else {
      VisitsShowKid(cats, kids[1..], depth, fuel, i - 1, childDepth, childFuel);
      assert kids[1..][i - 1] == kids[i];
      VisitsDescend(cats, kids, depth, fuel, childDepth, childFuel);
      WithinMiddle([Visit(depth, kids[0])], Visits(cats, ChildrenOf(cats, Some(kids[0].id)), childDepth, childFuel),
                   Visits(cats, kids[1..], depth, fuel));
    }
  }

  /** A category among `kids` is visited by the walk over them, even one that does
      not descend any further. */
  lemma {:induction false} VisitsShowLastKid(cats: seq<ApplicationCategory>, kids: seq<ApplicationCategory>, depth: nat, i: nat)
    requires i < |kids|
    ensures Visit(depth, kids[i]) in Visits(cats, kids, depth, 0)
    decreases i
  {
    VisitsStop(cats, kids, depth);
    if i > 0 {
      VisitsShowLastKid(cats, kids[1..], depth, i - 1);
      assert kids[1..][i - 1] == kids[i];
    }
  }

  /** A category `d` links below the top, for `d` below `total`, is visited at depth
      `d` by a walk from the top-level categories that descends `total` levels, and
      so is the whole walk below it. */
  lemma {:induction false} ListedWithSubtree(cats: seq<ApplicationCategory>, c: ApplicationCategory, d: nat,
                                             childDepth: nat, childFuel: nat, total: nat)
    requires c in cats && AtDepth(cats, c, d)
    requires childDepth == d + 1 && childDepth + childFuel == total
    ensures Visit(d, c) in Visits(cats, ChildrenOf(cats, None), 0, total)
    ensures Within(Visits(cats, ChildrenOf(cats, Some(c.id)), childDepth, childFuel), Visits(cats, ChildrenOf(cats, None), 0, total))
    decreases d
  {
    if d == 0 {
      var i := ChildIndex(cats, None, c);
      VisitsShowKid(cats, ChildrenOf(cats, None), 0, total, i, childDepth, childFuel);
    } else {
      var j :| 0 <= j < |cats| && cats[j].id == c.parent.value && AtDepth(cats, cats[j], d - 1);
      var fuel := childFuel + 1;
      ListedWithSubtree(cats, cats[j], d - 1, d, fuel, total);
      var siblings := ChildrenOf(cats, Some(cats[j].id));
      var i := ChildIndex(cats, Some(cats[j].id), c);
      VisitsShowKid(cats, siblings, d, fuel, i, childDepth, childFuel);
    }
  }

  /** A category `d` links below the top is visited at depth `d` by a walk from the
      top-level categories that descends `total` levels, for `d` up to `total`. */
  lemma ListedAtDepth(cats: seq<ApplicationCategory>, c: ApplicationCategory, d: nat, total: nat)
    requires c in cats && AtDepth(cats, c, d) && d <= total
    ensures Visit(d, c) in Visits(cats, ChildrenOf(cats, None), 0, total)
  {
    if d < total {
      ListedWithSubtree(cats, c, d, d + 1, total - d - 1, total);
    } else if d == 0 {
      var i := ChildIndex(cats, None, c);
      VisitsShowLastKid(cats, ChildrenOf(cats, None), 0, i);
    } else {
      var j :| 0 <= j < |cats| && cats[j].id == c.parent.value && AtDepth(cats, cats[j], d - 1);
      ListedWithSubtree(cats, cats[j], d - 1, d, 0, total);
      var i := ChildIndex(cats, Some(cats[j].id), c);
      VisitsShowLastKid(cats, ChildrenOf(cats, Some(cats[j].id)), d, i);
    }
  }

  /** Every one of `kids` is a category `depth` links below the top. */
  ghost predicate AllAtDepth(cats: seq<ApplicationCategory>, kids: seq<ApplicationCategory>, depth: nat)
  {
    forall i :: 0 <= i < |kids| ==> kids[i] in cats && AtDepth(cats, kids[i], depth)
  }

  /** The top-level categories are no links below the top. */
  lemma AllAtDepthRoots(cats: seq<ApplicationCategory>)
    ensures AllAtDepth(cats, ChildrenOf(cats, None), 0)
  {
    ChildrenBelong(cats, None);
  }

  /** The first of `kids` and the rest of them are all `depth` links below the top. */
  lemma AllAtDepthSplit(cats: seq<ApplicationCategory>, kids: seq<ApplicationCategory>, depth: nat)
    requires kids != [] && AllAtDepth(cats, kids, depth)
    ensures kids[0] in cats && AtDepth(cats, kids[0], depth)
    ensures AllAtDepth(cats, kids[1..], depth)
  {
    forall i | 0 <= i < |kids[1..]|
      ensures kids[1..][i] in cats && AtDepth(cats, kids[1..][i], depth)
    {
      assert kids[1..][i] == kids[i + 1];
    }
  }

  /** The children of a category `depth` links below the top are one link further down. */
  lemma ChildrenAtDepth(cats: seq<ApplicationCategory>, k: ApplicationCategory, depth: nat, childDepth: nat)
    requires k in cats && AtDepth(cats, k, depth) && childDepth == depth + 1
    ensures AllAtDepth(cats, ChildrenOf(cats, Some(k.id)), childDepth)
  {
    var i :| 0 <= i < |cats| && cats[i] == k;
    var children := ChildrenOf(cats, Some(k.id));
    ChildrenBelong(cats, Some(k.id));
    forall j | 0 <= j < |children|
      ensures children[j] in cats && AtDepth(cats, children[j], childDepth)
    {
      assert cats[i].id == children[j].parent.value;
    }
  }

  /** `x` is `n` SUPER_ID links below `a`: a chain of `n` parents, each found by its
      id, leads from `x` to `a`. */
  ghost predicate Below(cats: seq<ApplicationCategory>, x: ApplicationCategory, a: ApplicationCategory, n: nat)
    decreases n
  {
    if n == 0 then x == a
    else x.parent.Some? && exists j :: 0 <= j < |cats| && cats[j].id == x.parent.value && Below(cats, cats[j], a, n - 1)
  }

  /** A category below a child of `a` is one link further below `a`. */
  lemma {:induction false} BelowStep(cats: seq<ApplicationCategory>, x: ApplicationCategory, c: ApplicationCategory,
                                     a: ApplicationCategory, n: nat)
    requires a in cats && c.parent == Some(a.id) && Below(cats, x, c, n)
    ensures Below(cats, x, a, n + 1)
    decreases n
  {
    if n == 0 {
      var j :| 0 <= j < |cats| && cats[j] == a;
      assert cats[j].id == x.parent.value && Below(cats, cats[j], a, 0);
    } else {
      var j :| 0 <= j < |cats| && cats[j].id == x.parent.value && Below(cats, cats[j], c, n - 1);
      BelowStep(cats, cats[j], c, a, n - 1);
    }
  }

  /** With distinct ids the category `n` links above `x` is unique. */
  lemma {:induction false} BelowUnique(cats: seq<ApplicationCategory>, x: ApplicationCategory,
                                       a: ApplicationCategory, b: ApplicationCategory, n: nat)
    requires Distinct(CategoryIds(cats))
    ensures Below(cats, x, a, n) && Below(cats, x, b, n) ==> a == b
    decreases n
  {
    if n > 0 && Below(cats, x, a, n) && Below(cats, x, b, n) {
      var j :| 0 <= j < |cats| && cats[j].id == x.parent.value && Below(cats, cats[j], a, n - 1);
      var k :| 0 <= k < |cats| && cats[k].id == x.parent.value && Below(cats, cats[k], b, n - 1);
      assert CategoryIds(cats)[j] == CategoryIds(cats)[k];
      BelowUnique(cats, cats[j], a, b, n - 1);
    }
  }

  /** Visit `v` of a walk over `kids` from `depth` that descends to `total` is a
      category of the table at its own depth, and it hangs below one of `kids`. */
  ghost predicate VisitBelow(cats: seq<ApplicationCategory>, kids: seq<ApplicationCategory>, depth: nat, total: nat, v: Visit)
  {
    && depth <= v.depth <= total
    && v.cat in cats && AtDepth(cats, v.cat, v.depth)
    && exists k :: 0 <= k < |kids| && Below(cats, v.cat, kids[k], v.depth - depth)
  }

  ghost predicate AllVisitsBelow(cats: seq<ApplicationCategory>, kids: seq<ApplicationCategory>, depth: nat, total: nat, vs: seq<Visit>)
  {
    forall v :: v in vs ==> VisitBelow(cats, kids, depth, total, v)
  }

  lemma AllVisitsBelowJoin(cats: seq<ApplicationCategory>, kids: seq<ApplicationCategory>, depth: nat, total: nat,
                           a: seq<Visit>, b: seq<Visit>, c: seq<Visit>)
    requires AllVisitsBelow(cats, kids, depth, total, a)
    requires AllVisitsBelow(cats, kids, depth, total, b)
    requires AllVisitsBelow(cats, kids, depth, total, c)
    ensures AllVisitsBelow(cats, kids, depth, total, a + b + c)
  {
    forall v | v in a + b + c ensures VisitBelow(cats, kids, depth, total, v) {
      assert v in a || v in b || v in c;
    }
  }

  /** A visit below one of `kids[1..]` is below one of `kids`. */
  lemma VisitBelowOfRest(cats: seq<ApplicationCategory>, kids: seq<ApplicationCategory>, depth: nat, total: nat, v: Visit)
    requires kids != [] && VisitBelow(cats, kids[1..], depth, total, v)
    ensures VisitBelow(cats, kids, depth, total, v)
  {
    var k :| 0 <= k < |kids[1..]| && Below(cats, v.cat, kids[1..][k], v.depth - depth);
    assert kids[1..][k] == kids[k + 1];
  }

  /** A visit of the walk over the children of `kids[0]` hangs below `kids[0]`. */
  lemma BelowFirstKid(cats: seq<ApplicationCategory>, kids: seq<ApplicationCategory>, depth: nat, total: nat, v: Visit)
    requires kids != [] && kids[0] in cats
    requires VisitBelow(cats, ChildrenOf(cats, Some(kids[0].id)), depth + 1, total, v)
    ensures depth < v.depth && Below(cats, v.cat, kids[0], v.depth - depth)
  {
    var children := ChildrenOf(cats, Some(kids[0].id));
    var k :| 0 <= k < |children| && Below(cats, v.cat, children[k], v.depth - (depth + 1));
    ChildrenBelong(cats, Some(kids[0].id));
    BelowStep(cats, v.cat, children[k], kids[0], v.depth - (depth + 1));
  }

  /** Every visit of a walk over categories `depth` links below the top is a category
      of the table as many links below the top as it is indented, and hangs below the
      category of `kids` it was reached from. */
  lemma {:induction false} VisitsBelow(cats: seq<ApplicationCategory>, kids: seq<ApplicationCategory>,
                                       depth: nat, fuel: nat, total: nat)
    requires depth + fuel == total
    requires AllAtDepth(cats, kids, depth)
    ensures AllVisitsBelow(cats, kids, depth, total, Visits(cats, kids, depth, fuel))
    decreases fuel, |kids|
  {
    if kids != [] {
      var k := kids[0];
      AllAtDepthSplit(cats, kids, depth);
      var head := [Visit(depth, k)];
      assert VisitBelow(cats, kids, depth, total, head[0]) by {
        assert 0 <= 0 < |kids| && Below(cats, k, kids[0], 0);
      }
      assert AllVisitsBelow(cats, kids, depth, total, head);
      var rest := Visits(cats, kids[1..], depth, fuel);
      VisitsBelow(cats, kids[1..], depth, fuel, total);
      forall v | v in rest ensures VisitBelow(cats, kids, depth, total, v) {
        VisitBelowOfRest(cats, kids, depth, total, v);
      }
      if fuel > 0 {
        var childDepth, childFuel := depth + 1, fuel - 1;
        var children := ChildrenOf(cats, Some(k.id));
        ChildrenAtDepth(cats, k, depth, childDepth);
        VisitsBelow(cats, children, childDepth, childFuel, total);
        var below := Visits(cats, children, childDepth, childFuel);
        forall v | v in below ensures VisitBelow(cats, kids, depth, total, v) {
          BelowFirstKid(cats, kids, depth, total, v);
          assert 0 <= 0 < |kids| && Below(cats, v.cat, kids[0], v.depth - depth);
        }
        VisitsDescend(cats, kids, depth, fuel, childDepth, childFuel);
        AllVisitsBelowJoin(cats, kids, depth, total, head, below, rest);
      } else {
        VisitsStop(cats, kids, depth);
        AllVisitsBelowJoin(cats, kids, depth, total, head, [], rest);
        assert head + [] + rest == head + rest;
      }
    }
  }

  /** The walk over the children of `v`'s category one level deeper, with the fuel
      left at `v`'s depth in a walk that descends to `total`; nothing when the fuel
      ran out there. */
  function SubtreeVisits(cats: seq<ApplicationCategory>, v: Visit, total: nat): seq<Visit>
  {
    if v.depth < total then Visits(cats, ChildrenOf(cats, Some(v.cat.id)), v.depth + 1, total - v.depth - 1) else []
  }

  /** `vs` is `before`, then `v`, then `sub`, then `after`. */
  ghost predicate SplitAround(vs: seq<Visit>, before: seq<Visit>, v: Visit, sub: seq<Visit>, after: seq<Visit>)
  {
    vs == before + [v] + sub + after
  }

  /** Regrouping a walk whose middle part was split around a visit. */
  lemma Regroup(vs: seq<Visit>, pre: seq<Visit>, mid: seq<Visit>, post: seq<Visit>,
                b: seq<Visit>, v: Visit, sub: seq<Visit>, a: seq<Visit>)
    requires Joined(vs, pre, mid, post) && SplitAround(mid, b, v, sub, a)
    ensures SplitAround(vs, pre + b, v, sub, a + post)
  {
  }

  lemma InJoined(vs: seq<Visit>, a: seq<Visit>, b: seq<Visit>, c: seq<Visit>, v: Visit)
    requires Joined(vs, a, b, c) && v in vs
    ensures v in a || v in b || v in c
  {
  }

  lemma JoinedLeft(vs: seq<Visit>, a: seq<Visit>, b: seq<Visit>, c: seq<Visit>)
    requires Joined(vs, a, b, c)
    ensures Joined(vs, a + b, c, [])
  {
  }

  lemma JoinedRight(vs: seq<Visit>, a: seq<Visit>, b: seq<Visit>, c: seq<Visit>)
    requires Joined(vs, a, b, c)
    ensures Joined(vs, [], a + b, c)
  {
  }

  /** The walk over the children of the first of `kids` is that category's subtree. */
  lemma SubtreeOfFirst(cats: seq<ApplicationCategory>, kids: seq<ApplicationCategory>, depth: nat, fuel: nat, total: nat)
    requires kids != [] && fuel > 0 && depth + fuel == total
    ensures SplitAround([Visit(depth, kids[0])] + Visits(cats, ChildrenOf(cats, Some(kids[0].id)), depth + 1, fuel - 1),
                        [], Visit(depth, kids[0]), SubtreeVisits(cats, Visit(depth, kids[0]), total), [])
  {
    var childFuel: nat := total - depth - 1;
    assert childFuel == fuel - 1;
    assert SubtreeVisits(cats, Visit(depth, kids[0]), total)
        == Visits(cats, ChildrenOf(cats, Some(kids[0].id)), depth + 1, childFuel);
    SplitFirst(Visit(depth, kids[0]), Visits(cats, ChildrenOf(cats, Some(kids[0].id)), depth + 1, fuel - 1),
               SubtreeVisits(cats, Visit(depth, kids[0]), total));
  }

  lemma SplitFirst(v: Visit, below: seq<Visit>, sub: seq<Visit>)
    requires below == sub
    ensures SplitAround([v] + below, [], v, sub, [])
  {
  }

  /** The walk is a pre-order: every visit is followed directly by the walk over its
      own children one level deeper (unless the fuel ran out at its depth). */
  lemma {:induction false} VisitsPreorder(cats: seq<ApplicationCategory>, kids: seq<ApplicationCategory>,
                                          depth: nat, fuel: nat, total: nat, v: Visit)
    returns (before: seq<Visit>, after: seq<Visit>)
    requires depth + fuel == total && v in Visits(cats, kids, depth, fuel)
    ensures depth <= v.depth <= total
    ensures SplitAround(Visits(cats, kids, depth, fuel), before, v, SubtreeVisits(cats, v, total), after)
    decreases fuel, |kids|, 2
  {
    if fuel == 0 {
      before, after := PreorderStopped(cats, kids, depth, total, v);
    } else {
      before, after := PreorderDescending(cats, kids, depth, fuel, total, v);
    }
  }

  /** `VisitsPreorder` when the fuel has run out: only `kids` themselves are visited. */
  lemma {:induction false} PreorderStopped(cats: seq<ApplicationCategory>, kids: seq<ApplicationCategory>,
                                           depth: nat, total: nat, v: Visit)
    returns (before: seq<Visit>, after: seq<Visit>)
    requires depth == total && v in Visits(cats, kids, depth, 0)
    ensures depth <= v.depth <= total
    ensures SplitAround(Visits(cats, kids, depth, 0), before, v, SubtreeVisits(cats, v, total), after)
    decreases 0, |kids|, 0
  {
    var vs := Visits(cats, kids, depth, 0);
    assert kids != [];
    var head := [Visit(depth, kids[0])];
    var rest := Visits(cats, kids[1..], depth, 0);
    VisitsStop(cats, kids, depth);
    if v == head[0] {
      before, after := [] + [], [] + rest;
      Regroup(vs, [], head, rest, [], v, [], []);
    } else {
      assert v in rest;
      var b, a := VisitsPreorder(cats, kids[1..], depth, 0, total, v);
      before, after := head + b, a;
      Regroup(vs, head, rest, [], b, v, SubtreeVisits(cats, v, total), a);
    }
  }

  /** `VisitsPreorder` while fuel is left: the first of `kids`, its subtree, the rest. */
  lemma {:induction false} PreorderDescending(cats: seq<ApplicationCategory>, kids: seq<ApplicationCategory>,
                                              depth: nat, fuel: nat, total: nat, v: Visit)
    returns (before: seq<Visit>, after: seq<Visit>)
    requires fuel > 0 && depth + fuel == total && v in Visits(cats, kids, depth, fuel)
    ensures depth <= v.depth <= total
    ensures SplitAround(Visits(cats, kids, depth, fuel), before, v, SubtreeVisits(cats, v, total), after)
    decreases fuel, |kids|, 1
  {
    VisitedInDescent(cats, kids, depth, fuel, v);
    var below := Visits(cats, ChildrenOf(cats, Some(kids[0].id)), depth + 1, fuel - 1);
    if v == Visit(depth, kids[0]) {
      before, after := PreorderAtFirst(cats, kids, depth, fuel, total, v);
    } else if v in below {
      before, after := PreorderInFirstSubtree(cats, kids, depth, fuel, total, v);
    } else {
      before, after := PreorderInRest(cats, kids, depth, fuel, total, v);
    }
  }

  /** A visit of a walk with fuel left is the first of `kids`, a visit below it, or a
      visit in the walk over the rest. */
  lemma VisitedInDescent(cats: seq<ApplicationCategory>, kids: seq<ApplicationCategory>, depth: nat, fuel: nat, v: Visit)
    requires fuel > 0 && v in Visits(cats, kids, depth, fuel)
    ensures kids != []
    ensures || v == Visit(depth, kids[0])
            || v in Visits(cats, ChildrenOf(cats, Some(kids[0].id)), depth + 1, fuel - 1)
            || v in Visits(cats, kids[1..], depth, fuel)
  {
    assert kids != [];
    var childDepth: nat, childFuel: nat := depth + 1, fuel - 1;
    var below := Visits(cats, ChildrenOf(cats, Some(kids[0].id)), childDepth, childFuel);
    VisitsDescend(cats, kids, depth, fuel, childDepth, childFuel);
    InJoined(Visits(cats, kids, depth, fuel), [Visit(depth, kids[0])], below, Visits(cats, kids[1..], depth, fuel), v);
  }

  /** `PreorderDescending` for the visit of the first of `kids`. */
  lemma PreorderAtFirst(cats: seq<ApplicationCategory>, kids: seq<ApplicationCategory>,
                        depth: nat, fuel: nat, total: nat, v: Visit)
    returns (before: seq<Visit>, after: seq<Visit>)
    requires kids != [] && fuel > 0 && depth + fuel == total && v == Visit(depth, kids[0])
    ensures SplitAround(Visits(cats, kids, depth, fuel), before, v, SubtreeVisits(cats, v, total), after)
  {
    var vs, head, rest := Visits(cats, kids, depth, fuel), [Visit(depth, kids[0])], Visits(cats, kids[1..], depth, fuel);
    var childDepth: nat, childFuel: nat := depth + 1, fuel - 1;
    var below := Visits(cats, ChildrenOf(cats, Some(kids[0].id)), childDepth, childFuel);
    VisitsDescend(cats, kids, depth, fuel, childDepth, childFuel);
    before, after := [] + [], [] + rest;
    SubtreeOfFirst(cats, kids, depth, fuel, total);
    JoinedRight(vs, head, below, rest);
    Regroup(vs, [], head + below, rest, [], v, SubtreeVisits(cats, v, total), []);
  }

  /** `PreorderDescending` for a visit in the walk over the rest of `kids`. */
  lemma {:induction false} PreorderInRest(cats: seq<ApplicationCategory>, kids: seq<ApplicationCategory>,
                                          depth: nat, fuel: nat, total: nat, v: Visit)
    returns (before: seq<Visit>, after: seq<Visit>)
    requires kids != [] && fuel > 0 && depth + fuel == total
    requires v in Visits(cats, kids[1..], depth, fuel)
    ensures depth <= v.depth <= total
    ensures SplitAround(Visits(cats, kids, depth, fuel), before, v, SubtreeVisits(cats, v, total), after)
    decreases fuel, |kids|, 0
  {
    var vs, head, rest := Visits(cats, kids, depth, fuel), [Visit(depth, kids[0])], Visits(cats, kids[1..], depth, fuel);
    var childDepth: nat, childFuel: nat := depth + 1, fuel - 1;
    var below := Visits(cats, ChildrenOf(cats, Some(kids[0].id)), childDepth, childFuel);
    VisitsDescend(cats, kids, depth, fuel, childDepth, childFuel);
    var b, a := VisitsPreorder(cats, kids[1..], depth, fuel, total, v);
    before, after := head + below + b, a;
    JoinedLeft(vs, head, below, rest);
    Regroup(vs, head + below, rest, [], b, v, SubtreeVisits(cats, v, total), a);
  }

  /** `PreorderDescending` for a visit inside the subtree of the first of `kids`. */
  lemma {:induction false} PreorderInFirstSubtree(cats: seq<ApplicationCategory>, kids: seq<ApplicationCategory>,
                                                  depth: nat, fuel: nat, total: nat, v: Visit)
    returns (before: seq<Visit>, after: seq<Visit>)
    requires kids != [] && fuel > 0 && depth + fuel == total
    requires v in Visits(cats, ChildrenOf(cats, Some(kids[0].id)), depth + 1, fuel - 1)
    ensures depth <= v.depth <= total
    ensures SplitAround(Visits(cats, kids, depth, fuel), before, v, SubtreeVisits(cats, v, total), after)
    decreases fuel, |kids|, 0
  {
    var head, rest := [Visit(depth, kids[0])], Visits(cats, kids[1..], depth, fuel);
    var childDepth: nat, childFuel: nat := depth + 1, fuel - 1;
    var below := Visits(cats, ChildrenOf(cats, Some(kids[0].id)), childDepth, childFuel);
    VisitsDescend(cats, kids, depth, fuel, childDepth, childFuel);
    var b, a := VisitsPreorder(cats, ChildrenOf(cats, Some(kids[0].id)), childDepth, childFuel, total, v);
    before, after := head + b, a + rest;
    Regroup(Visits(cats, kids, depth, fuel), head, below, rest, b, v, SubtreeVisits(cats, v, total), a);
  }

  /** In a list without repeated categories, the visit at index `i` that splits it as
      `before + [v] + sub + after` is followed at once by `sub`, in the visits and in
      the lines they print. */
  lemma SplitAt(vs: seq<Visit>, i: nat, before: seq<Visit>, v: Visit, sub: seq<Visit>, after: seq<Visit>)
    requires Once(vs) && i < |vs| && vs[i] == v
    requires SplitAround(vs, before, v, sub, after)
    ensures i + 1 + |sub| <= |vs| && vs[i + 1..i + 1 + |sub|] == sub
    ensures Lines(vs)[i + 1..i + 1 + |sub|] == Lines(sub)
  {
    assert vs[|before|] == v;
    assert |before| == i;
    assert vs[i + 1..i + 1 + |sub|] == (before + [v] + sub + after)[|before + [v]|..|before + [v] + sub|];
    LinesSlice(vs, i + 1, i + 1 + |sub|);
  }

  /** No category is visited twice. */
  ghost predicate Once(vs: seq<Visit>)
  {
    forall i, j :: 0 <= i < j < |vs| ==> vs[i].cat != vs[j].cat
  }

  /** No category is visited both in `a` and in `b`. */
  ghost predicate Apart(a: seq<Visit>, b: seq<Visit>)
  {
    forall x, y :: x in a && y in b ==> x.cat != y.cat
  }

  lemma OnceJoin(a: seq<Visit>, b: seq<Visit>)
    requires Once(a) && Once(b) && Apart(a, b)
    ensures Once(a + b)
  {
    var s := a + b;
    forall i, j | 0 <= i < j < |s| ensures s[i].cat != s[j].cat {
      if j < |a| {
        assert s[i] == a[i] && s[j] == a[j];
      } else if i < |a| {
        assert s[i] == a[i] && s[j] == b[j - |a|];
      } else {
        assert s[i] == b[i - |a|] && s[j] == b[j - |a|];
      }
    }
  }

  lemma OnceJoin3(vs: seq<Visit>, a: seq<Visit>, b: seq<Visit>, c: seq<Visit>)
    requires Joined(vs, a, b, c)
    requires Once(a) && Once(b) && Once(c) && Apart(a, b) && Apart(a, c) && Apart(b, c)
    ensures Once(vs)
  {
    OnceJoin(a, b);
    forall x, y | x in a + b && y in c ensures x.cat != y.cat {
      assert x in a || x in b;
    }
    OnceJoin(a + b, c);
  }

  lemma DistinctTail(kids: seq<ApplicationCategory>)
    requires kids != [] && Distinct(kids)
    ensures Distinct(kids[1..])
  {
    forall a, b | 0 <= a < b < |kids[1..]| ensures kids[1..][a] != kids[1..][b] {
      assert kids[1..][a] == kids[a + 1] && kids[1..][b] == kids[b + 1];
    }
  }

  /** With distinct ids no category is among the children of a parent twice. */
  lemma {:induction false} ChildrenDistinct(cats: seq<ApplicationCategory>, parent: Option<nat>)
    requires Distinct(CategoryIds(cats))
    ensures Distinct(ChildrenOf(cats, parent))
  {
    if cats != [] {
      var tail := cats[1..];
      forall a, b | 0 <= a < b < |tail| ensures CategoryIds(tail)[a] != CategoryIds(tail)[b] {
        assert CategoryIds(cats)[a + 1] != CategoryIds(cats)[b + 1];
      }
      ChildrenDistinct(tail, parent);
      ChildrenBelong(tail, parent);
      var head := if cats[0].parent == parent then [cats[0]] else [];
      var later := ChildrenOf(tail, parent);
      var kids := ChildrenOf(cats, parent);
      assert kids == head + later;
      forall a, b | 0 <= a < b < |kids| ensures kids[a] != kids[b] {
        assert kids[b] == later[b - |head|];
        if a < |head| {
          var m :| 0 <= m < |tail| && tail[m] == later[b - |head|];
          assert CategoryIds(cats)[0] != CategoryIds(cats)[m + 1];
        } else {
          assert kids[a] == later[a - |head|];
        }
      }
    }
  }

  /** The first of `kids` is not visited again below itself. */
  lemma HeadApartFromBelow(cats: seq<ApplicationCategory>, kids: seq<ApplicationCategory>, depth: nat, total: nat, x: Visit)
    requires Distinct(CategoryIds(cats))
    requires kids != [] && kids[0] in cats && AtDepth(cats, kids[0], depth)
    requires VisitBelow(cats, ChildrenOf(cats, Some(kids[0].id)), depth + 1, total, x)
    ensures x.cat != kids[0]
  {
    DepthUnique(cats, x.cat, x.depth, depth);
  }

  /** The first of distinct siblings is not visited again under the others. */
  lemma HeadApartFromRest(cats: seq<ApplicationCategory>, kids: seq<ApplicationCategory>, depth: nat, total: nat, y: Visit)
    requires Distinct(CategoryIds(cats)) && Distinct(kids)
    requires kids != [] && AtDepth(cats, kids[0], depth)
    requires VisitBelow(cats, kids[1..], depth, total, y)
    ensures y.cat != kids[0]
  {
    var m :| 0 <= m < |kids[1..]| && Below(cats, y.cat, kids[1..][m], y.depth - depth);
    assert kids[1..][m] == kids[m + 1] && kids[0] != kids[m + 1];
    DepthUnique(cats, y.cat, y.depth, depth);
  }

  /** What hangs below the first of distinct siblings is not visited again under the others. */
  lemma BelowApartFromRest(cats: seq<ApplicationCategory>, kids: seq<ApplicationCategory>, depth: nat, total: nat,
                           x: Visit, y: Visit)
    requires Distinct(CategoryIds(cats)) && Distinct(kids)
    requires kids != [] && kids[0] in cats
    requires VisitBelow(cats, ChildrenOf(cats, Some(kids[0].id)), depth + 1, total, x)
    requires VisitBelow(cats, kids[1..], depth, total, y)
    ensures x.cat != y.cat
  {
    BelowFirstKid(cats, kids, depth, total, x);
    var m :| 0 <= m < |kids[1..]| && Below(cats, y.cat, kids[1..][m], y.depth - depth);
    assert kids[1..][m] == kids[m + 1] && kids[0] != kids[m + 1];
    DepthUnique(cats, x.cat, x.depth, y.depth);
    BelowUnique(cats, x.cat, kids[0], kids[m + 1], x.depth - depth);
  }

  /** With distinct ids a walk over distinct siblings visits every category at most once. */
  lemma {:induction false} VisitsOnce(cats: seq<ApplicationCategory>, kids: seq<ApplicationCategory>, depth: nat, fuel: nat)
    requires Distinct(CategoryIds(cats)) && AllAtDepth(cats, kids, depth) && Distinct(kids)
    ensures Once(Visits(cats, kids, depth, fuel))
    decreases fuel, |kids|
  {
    if kids != [] {
      var k := kids[0];
      var total := depth + fuel;
      AllAtDepthSplit(cats, kids, depth);
      var head := [Visit(depth, k)];
      var rest := Visits(cats, kids[1..], depth, fuel);
      DistinctTail(kids);
      VisitsOnce(cats, kids[1..], depth, fuel);
      VisitsBelow(cats, kids[1..], depth, fuel, total);
      forall x, y | x in head && y in rest ensures x.cat != y.cat {
        HeadApartFromRest(cats, kids, depth, total, y);
      }
      if fuel > 0 {
        var childDepth, childFuel := depth + 1, fuel - 1;
        var children := ChildrenOf(cats, Some(k.id));
        ChildrenAtDepth(cats, k, depth, childDepth);
        ChildrenDistinct(cats, Some(k.id));
        VisitsOnce(cats, children, childDepth, childFuel);
        VisitsBelow(cats, children, childDepth, childFuel, total);
        var below := Visits(cats, children, childDepth, childFuel);
        forall x, y | x in head && y in below ensures x.cat != y.cat {
          HeadApartFromBelow(cats, kids, depth, total, y);
        }
        forall x, y | x in below && y in rest ensures x.cat != y.cat {
          BelowApartFromRest(cats, kids, depth, total, x, y);
        }
        VisitsDescend(cats, kids, depth, fuel, childDepth, childFuel);
        OnceJoin3(Visits(cats, kids, depth, fuel), head, below, rest);
      } else {
        VisitsStop(cats, kids, depth);
        OnceJoin3(Visits(cats, kids, depth, fuel), [], head, rest);
      }
    }
  }

  /** The lines printed for a slice of the visits are that slice of the lines. */
  lemma LinesSlice(vs: seq<Visit>, lo: nat, hi: nat)
    requires lo <= hi <= |vs|
    ensures Lines(vs)[lo..hi] == Lines(vs[lo..hi])
  {
  }

  /** A line is printed exactly when some visit shows that name at that depth. */
  lemma LineOfVisits(vs: seq<Visit>, l: Line)
    ensures l in Lines(vs) <==> exists v :: v in vs && l == Line(v.depth, v.cat.name)
  {
    if l in Lines(vs) {
      var i :| 0 <= i < |vs| && Lines(vs)[i] == l;
      assert vs[i] in vs;
    }
    if exists v :: v in vs && l == Line(v.depth, v.cat.name) {
      var v :| v in vs && l == Line(v.depth, v.cat.name);
      var i :| 0 <= i < |vs| && vs[i] == v;
      assert Lines(vs)[i] == l;
    }
  }

  /** The listing visits exactly the categories that hang below a top-level category,
      each at the number of SUPER_ID links between it and the top (the walk descends
      at most as many levels as there are categories): a category whose parent is
      missing, or that sits on a cycle, is never reached. */
  lemma ListingVisitsAreCategoriesAtDepth(cats: seq<ApplicationCategory>, d: nat, c: ApplicationCategory)
    ensures Visit(d, c) in ListingVisits(cats) <==> d <= |cats| && c in cats && AtDepth(cats, c, d)
  {
    if Visit(d, c) in ListingVisits(cats) {
      AllAtDepthRoots(cats);
      VisitsBelow(cats, ChildrenOf(cats, None), 0, |cats|, |cats|);
      assert VisitBelow(cats, ChildrenOf(cats, None), 0, |cats|, Visit(d, c));
    }
    if d <= |cats| && c in cats && AtDepth(cats, c, d) {
      ListedAtDepth(cats, c, d, |cats|);
    }
  }

  /** A line `(d, name)` is printed exactly when some category with that name sits
      `d` SUPER_ID links below a top-level category, for `d` up to the number of
      categories. */
  lemma ListingIsCategoriesAtDepth(cats: seq<ApplicationCategory>, d: nat, name: string)
    ensures Line(d, name) in Listing(cats) <==>
      d <= |cats| && exists i :: 0 <= i < |cats| && cats[i].name == name && AtDepth(cats, cats[i], d)
  {
    var vs := ListingVisits(cats);
    LineOfVisits(vs, Line(d, name));
    if Line(d, name) in Listing(cats) {
      var v :| v in vs && Line(d, name) == Line(v.depth, v.cat.name);
      ListingVisitsAreCategoriesAtDepth(cats, v.depth, v.cat);
      var i :| 0 <= i < |cats| && cats[i] == v.cat;
      assert cats[i].name == name && AtDepth(cats, cats[i], d);
    }
    if d <= |cats| && exists i :: 0 <= i < |cats| && cats[i].name == name && AtDepth(cats, cats[i], d) {
      var i :| 0 <= i < |cats| && cats[i].name == name && AtDepth(cats, cats[i], d);
      ListingVisitsAreCategoriesAtDepth(cats, d, cats[i]);
      assert Visit(d, cats[i]) in vs;
    }
  }

  /** With distinct ids a category sits at one depth at most: its parent is the only
      row with the parent's id. */
  lemma {:induction false} DepthUnique(cats: seq<ApplicationCategory>, c: ApplicationCategory, a: nat, b: nat)
    requires Distinct(CategoryIds(cats))
    ensures AtDepth(cats, c, a) && AtDepth(cats, c, b) ==> a == b
    decreases a
  {
    if a > 0 && b > 0 && AtDepth(cats, c, a) && AtDepth(cats, c, b) {
      var j :| 0 <= j < |cats| && cats[j].id == c.parent.value && AtDepth(cats, cats[j], a - 1);
      var k :| 0 <= k < |cats| && cats[k].id == c.parent.value && AtDepth(cats, cats[k], b - 1);
      assert CategoryIds(cats)[j] == CategoryIds(cats)[k];
      DepthUnique(cats, cats[j], a - 1, b - 1);
    }
  }

  /** Taking out the category at index `i`, `d` links below the top, keeps every
      category that sits fewer links below the top at its depth: the chain above
      such a category never passes through row `i`. */
  lemma {:induction false} AtDepthWithout(cats: seq<ApplicationCategory>, i: nat, d: nat, x: ApplicationCategory, k: nat)
    requires Distinct(CategoryIds(cats))
    requires i < |cats| && AtDepth(cats, cats[i], d)
    requires AtDepth(cats, x, k) && k < d
    ensures AtDepth(cats[..i] + cats[i + 1..], x, k)
    decreases k
  {
    if k > 0 {
      var rest := cats[..i] + cats[i + 1..];
      var j :| 0 <= j < |cats| && cats[j].id == x.parent.value && AtDepth(cats, cats[j], k - 1);
      DepthUnique(cats, cats[i], k - 1, d);
      AtDepthWithout(cats, i, d, cats[j], k - 1);
      var j' := IndexWithout(cats, i, j);
      assert 0 <= j' < |rest| && rest[j'].id == x.parent.value && AtDepth(rest, rest[j'], k - 1);
    }
  }

  /** Where row `j` lands once row `i` is taken out. */
  lemma IndexWithout(cats: seq<ApplicationCategory>, i: nat, j: nat) returns (j': nat)
    requires i < |cats| && j < |cats| && j != i
    ensures j' < |cats[..i] + cats[i + 1..]| && (cats[..i] + cats[i + 1..])[j'] == cats[j]
  {
    j' := if j < i then j else j - 1;
  }

  /** Taking out a row keeps the ids distinct. */
  lemma DistinctIdsWithout(cats: seq<ApplicationCategory>, i: nat)
    requires Distinct(CategoryIds(cats)) && i < |cats|
    ensures Distinct(CategoryIds(cats[..i] + cats[i + 1..]))
  {
    var rest := cats[..i] + cats[i + 1..];
    forall a, b | 0 <= a < b < |rest|
      ensures CategoryIds(rest)[a] != CategoryIds(rest)[b]
    {
      var a', b' := if a < i then a else a + 1, if b < i then b else b + 1;
      assert rest[a] == cats[a'] && rest[b] == cats[b'];
      assert CategoryIds(cats)[a'] != CategoryIds(cats)[b'];
    }
  }

  /** With distinct ids the chain of parents above a category visits distinct rows,
      so a category of the table sits fewer links below the top than there are rows. */
  lemma {:induction false} CategoryDepthBelowCount(cats: seq<ApplicationCategory>, c: ApplicationCategory, d: nat)
    requires Distinct(CategoryIds(cats))
    requires c in cats && AtDepth(cats, c, d)
    ensures d < |cats|
    decreases |cats|
  {
    if d > 0 {
      var i :| 0 <= i < |cats| && cats[i] == c;
      var rest := cats[..i] + cats[i + 1..];
      var j :| 0 <= j < |cats| && cats[j].id == c.parent.value && AtDepth(cats, cats[j], d - 1);
      AtDepthWithout(cats, i, d, cats[j], d - 1);
      DepthUnique(cats, c, d - 1, d);
      var j' := IndexWithout(cats, i, j);
      assert cats[j] in rest && |rest| == |cats| - 1;
      DistinctIdsWithout(cats, i);
      CategoryDepthBelowCount(rest, cats[j], d - 1);
    }
  }

  /** For a table with distinct ids (every store keeps them so), the fuel never cuts
      the listing: it visits a category at depth `d` exactly when the category sits
      `d` SUPER_ID links below a top-level category. */
  lemma ListingVisitsOfDistinctIds(cats: seq<ApplicationCategory>, d: nat, c: ApplicationCategory)
    requires Distinct(CategoryIds(cats))
    ensures Visit(d, c) in ListingVisits(cats) <==> c in cats && AtDepth(cats, c, d)
  {
    ListingVisitsAreCategoriesAtDepth(cats, d, c);
    if c in cats && AtDepth(cats, c, d) {
      CategoryDepthBelowCount(cats, c, d);
    }
  }

  /** For distinct ids a line `(d, name)` is printed exactly when some category with
      that name sits `d` SUPER_ID links below a top-level category. */
  lemma ListingOfDistinctIds(cats: seq<ApplicationCategory>, d: nat, name: string)
    requires Distinct(CategoryIds(cats))
    ensures Line(d, name) in Listing(cats) <==>
      exists i :: 0 <= i < |cats| && cats[i].name == name && AtDepth(cats, cats[i], d)
  {
    ListingIsCategoriesAtDepth(cats, d, name);
    if exists i :: 0 <= i < |cats| && cats[i].name == name && AtDepth(cats, cats[i], d) {
      var i :| 0 <= i < |cats| && cats[i].name == name && AtDepth(cats, cats[i], d);
      CategoryDepthBelowCount(cats, cats[i], d);
    }
  }

  /** For distinct ids the listing prints every category it reaches once. */
  lemma ListingVisitsOnce(cats: seq<ApplicationCategory>)
    requires Distinct(CategoryIds(cats))
    ensures Once(ListingVisits(cats))
  {
    AllAtDepthRoots(cats);
    ChildrenDistinct(cats, None);
    VisitsOnce(cats, ChildrenOf(cats, None), 0, |cats|);
  }

  /** With distinct ids no visit of the listing is as deep as there are categories. */
  lemma ListedDepthBelowCount(cats: seq<ApplicationCategory>, v: Visit)
    requires Distinct(CategoryIds(cats)) && v in ListingVisits(cats)
    ensures v.depth < |cats|
  {
    AllAtDepthRoots(cats);
    VisitsBelow(cats, ChildrenOf(cats, None), 0, |cats|, |cats|);
    assert VisitBelow(cats, ChildrenOf(cats, None), 0, |cats|, v);
    CategoryDepthBelowCount(cats, v.cat, v.depth);
  }

  /** For distinct ids every category's line in the listing is followed directly by
      the lines of its sub-categories, one tab deeper (`print_sub_cat` right after the
      `print` of the category); the fuel never runs out first. */
  lemma ListingPreorder(cats: seq<ApplicationCategory>, i: nat)
    requires Distinct(CategoryIds(cats)) && i < |ListingVisits(cats)|
    ensures ListingVisits(cats)[i].depth < |cats|
    ensures var vs, sub := ListingVisits(cats), SubtreeVisits(cats, ListingVisits(cats)[i], |cats|);
      && i + 1 + |sub| <= |vs| && vs[i + 1..i + 1 + |sub|] == sub
      && Listing(cats)[i + 1..i + 1 + |sub|] == Lines(sub)
  {
    var vs := ListingVisits(cats);
    var v := vs[i];
    assert v in vs;
    ListedDepthBelowCount(cats, v);
    var before, after := VisitsPreorder(cats, ChildrenOf(cats, None), 0, |cats|, |cats|, v);
    ListingVisitsOnce(cats);
    SplitAt(vs, i, before, v, SubtreeVisits(cats, v, |cats|), after);
  }
}
