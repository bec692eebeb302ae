/** The group structure: who owns whom, and which one company is primary
    (backend/companies/models.py). */
module Companies {
  import opened Options

  datatype Company = Company(parent: Option<int>, isPrimary: bool, isActive: bool)

  type Group = map<int, Company>

  predicate HasRow(g: Group, id: Option<int>) {
    id.Some? ==> id.value in g
  }

  /** The foreign key: a parent is a row of the table. */
  ghost predicate Linked(g: Group) {
    forall id | id in g :: HasRow(g, g[id].parent)
  }

  datatype Verdict = Accepted | PrimaryClash | OwnParent | Loop

  predicate Clashes(g: Group, pk: Option<int>, c: Company) {
    c.isPrimary && exists id | id in g :: g[id].isPrimary && pk != Some(id)
  }

  /** Walking up from `node` reaches a company without a parent before meeting a company
      already seen. */
  predicate ReachesTop(g: Group, node: Option<int>, seen: set<int>)
    requires Linked(g) && HasRow(g, node)
    decreases |g.Keys - seen|
  {
    match node
    case None => true
    case Some(id) =>
      if id in seen then false
      else
        assert id in g.Keys - seen && HasRow(g, g[id].parent);
        SmallerSet(g.Keys - (seen + {id}), g.Keys - seen);
        ReachesTop(g, g[id].parent, seen + {id})
  }

  lemma SmallerSet<T>(x: set<T>, y: set<T>)
    requires x < y
    ensures |x| < |y|
  {
    assert y == x + (y - x) && y - x != {};
  }

  function SelfSeen(pk: Option<int>): set<int> {
    if pk.Some? then {pk.value} else {}
  }

  /** `Company.clean`, for a new company (`pk` None) or an edited one, against the stored
      group.  It needs nothing of the group but the foreign key, so it terminates on a group
      that already holds a loop. */
  method Clean(g: Group, pk: Option<int>, c: Company) returns (v: Verdict)
    requires Linked(g) && HasRow(g, c.parent)
    ensures v == PrimaryClash <==> Clashes(g, pk, c)
    ensures v == OwnParent <==> !Clashes(g, pk, c) && c.parent.Some? && c.parent == pk
    ensures v == Accepted <==> !Clashes(g, pk, c) && ReachesTop(g, c.parent, SelfSeen(pk))
    ensures pk.Some? ==> (v == Accepted <==> !Clashes(g, pk, c) && Topped(g[pk.value := c], pk.value))
  {
    if pk.Some? { WalkIsExact(g, pk.value, c); }
    if c.isPrimary && exists id | id in g :: g[id].isPrimary && pk != Some(id) { return PrimaryClash; }
    if c.parent.Some? && c.parent == pk { return OwnParent; }
    var seen := SelfSeen(pk);
    var node := c.parent;
    while node.Some?
      invariant HasRow(g, node)
      invariant ReachesTop(g, node, seen) <==> ReachesTop(g, c.parent, SelfSeen(pk))
      decreases node.Some?, |g.Keys - seen|
    {
      var id := node.value;
      if id in seen { return Loop; }
      ghost var left := g.Keys - seen;
      assert id in left && HasRow(g, g[id].parent);
      seen := seen + {id};
      SmallerSet(g.Keys - seen, left);
      node := g[id].parent;
    }
    return Accepted;
  }

  // ---------- groups without loops ----------

  /** Exactly `n` parents above the company. */
  predicate Above(g: Group, id: int, n: nat)
    decreases n
  {
    id in g && (if n == 0 then g[id].parent.None?
                else g[id].parent.Some? && Above(g, g[id].parent.value, n - 1))
  }

  ghost predicate Topped(g: Group, id: int) {
    exists n: nat :: Above(g, id, n)
  }

  ghost predicate Acyclic(g: Group) {
    forall id | id in g :: Topped(g, id)
  }

  ghost predicate OnePrimary(g: Group) {
    forall a, b | a in g && b in g :: g[a].isPrimary && g[b].isPrimary ==> a == b
  }

  lemma {:induction false} AboveIsUnique(g: Group, id: int, n: nat, m: nat)
    requires Above(g, id, n) && Above(g, id, m)
    ensures n == m
    decreases n
  {
    if n > 0 && m > 0 { AboveIsUnique(g, g[id].parent.value, n - 1, m - 1); }
  }

  ghost predicate MoreThan(h: Group, id: int, n: int) {
    exists k: nat :: k > n && Above(h, id, k)
  }

  /** The two groups agree on every company not yet seen. */
  ghost predicate AgreeOff(g: Group, h: Group, seen: set<int>) {
    forall x | x in g && x !in seen :: x in h && h[x] == g[x]
  }

  lemma {:induction false} WalkFindsTop(g: Group, h: Group, node: Option<int>, seen: set<int>)
    requires Linked(g) && HasRow(g, node)
    requires AgreeOff(g, h, seen) && ReachesTop(g, node, seen)
    ensures node.Some? ==> Topped(h, node.value)
    decreases |g.Keys - seen|
  {
    if node.Some? {
      var id := node.value;
      assert id in g.Keys - seen;
      SmallerSet(g.Keys - (seen + {id}), g.Keys - seen);
      WalkFindsTop(g, h, g[id].parent, seen + {id});
      if g[id].parent.None? {
        assert Above(h, id, 0);
      } else {
        var n: nat :| Above(h, g[id].parent.value, n);
        assert Above(h, id, n + 1);
      }
    }
  }

  lemma {:induction false} TopIsWalked(g: Group, h: Group, node: Option<int>, n: nat, seen: set<int>)
    requires Linked(g) && (node.Some? ==> node.value in g && Above(h, node.value, n))
    requires AgreeOff(g, h, seen)
    requires forall x | x in seen :: MoreThan(h, x, n)
    ensures ReachesTop(g, node, seen)
    decreases n
  {
    if node.Some? {
      var id := node.value;
      if id in seen {
        var k: nat :| k > n && Above(h, id, k);
        AboveIsUnique(h, id, n, k);
        assert false;
      }
      assert id in g.Keys - seen;
      SmallerSet(g.Keys - (seen + {id}), g.Keys - seen);
      if g[id].parent.Some? {
        assert MoreThan(h, id, n - 1);
        TopIsWalked(g, h, g[id].parent, n - 1, seen + {id});
      }
    }
  }

  /** What the walk decides, on any group, looped elsewhere or not: an edit is let through
      exactly when the saved company's chain of parents comes to an end. */
  lemma WalkIsExact(g: Group, pk: int, c: Company)
    requires Linked(g) && HasRow(g, c.parent)
    ensures ReachesTop(g, c.parent, {pk}) <==> Topped(g[pk := c], pk)
  {
    var h := g[pk := c];
    if ReachesTop(g, c.parent, {pk}) {
      WalkFindsTop(g, h, c.parent, {pk});
      if c.parent.None? {
        assert Above(h, pk, 0);
      } else {
        var n: nat :| Above(h, c.parent.value, n);
        assert Above(h, pk, n + 1);
      }
    }
    if Topped(h, pk) {
      var n: nat :| Above(h, pk, n);
      if c.parent.Some? {
        assert MoreThan(h, pk, n - 1);
        TopIsWalked(g, h, c.parent, n - 1, {pk});
      }
    }
  }

  /** On a group without loops a new company is refused for a clash of primaries only. */
  lemma CreationIsNeverALoop(g: Group, c: Company)
    requires Linked(g) && Acyclic(g) && HasRow(g, c.parent)
    ensures ReachesTop(g, c.parent, {})
  {
    if c.parent.Some? {
      var n: nat :| Above(g, c.parent.value, n);
      TopIsWalked(g, g, c.parent, n, {});
    }
  }

  // ---------- runs of saves and deletions ----------

  datatype Step = Create(id: int, c: Company) | Edit(id: int, c: Company) | Delete(id: int)

  /** Deleting a company leaves its children without a parent. */
  function Without(g: Group, id: int): Group {
    map x | x in g && x != id :: if g[x].parent == Some(id) then g[x].(parent := None) else g[x]
  }

  function After(g: Group, step: Step): Group
    requires Linked(g)
  {
    match step
    case Create(id, c) =>
      if id !in g && HasRow(g, c.parent) && !Clashes(g, None, c) && ReachesTop(g, c.parent, {})
      then g[id := c] else g
    case Edit(id, c) =>
      if id in g && HasRow(g, c.parent) && !Clashes(g, Some(id), c) && ReachesTop(g, c.parent, {id})
      then g[id := c] else g
    case Delete(id) => Without(g, id)
  }

  lemma StepKeepsLinks(g: Group, step: Step)
    requires Linked(g)
    ensures Linked(After(g, step))
  {
  }

  function Run(g: Group, steps: seq<Step>): Group
    requires Linked(g)
    decreases |steps|
  {
    if steps == [] then g
    else
      StepKeepsLinks(g, steps[0]);
      Run(After(g, steps[0]), steps[1..])
  }

  lemma {:induction false} OthersStayTopped(g: Group, pk: int, c: Company, x: int, n: nat)
    requires Above(g, x, n) && Topped(g[pk := c], pk)
    ensures Topped(g[pk := c], x)
    decreases n
  {
    var h := g[pk := c];
    if x != pk {
      if n == 0 {
        assert Above(h, x, 0);
      } else {
        OthersStayTopped(g, pk, c, g[x].parent.value, n - 1);
        var m: nat :| Above(h, g[x].parent.value, m);
        assert Above(h, x, m + 1);
      }
    }
  }

  lemma {:induction false} SurvivorsStayTopped(g: Group, id: int, x: int, n: nat)
    requires Above(g, x, n) && x != id
    ensures Topped(Without(g, id), x)
    decreases n
  {
    var h := Without(g, id);
    if h[x].parent.None? {
      assert Above(h, x, 0);
    } else {
      SurvivorsStayTopped(g, id, g[x].parent.value, n - 1);
      var m: nat :| Above(h, g[x].parent.value, m);
      assert Above(h, x, m + 1);
    }
  }

  lemma SaveKeepsAcyclic(g: Group, pk: int, c: Company)
    requires Linked(g) && Acyclic(g) && HasRow(g, c.parent)
    requires Topped(g[pk := c], pk)
    ensures Acyclic(g[pk := c])
  {
    var h := g[pk := c];
    forall x | x in h ensures Topped(h, x) {
      if x != pk {
        var n: nat :| Above(g, x, n);
        OthersStayTopped(g, pk, c, x, n);
      }
    }
  }

  /** A new company hangs under a chain that does not contain it. */
  lemma {:induction false} NewStaysTopped(g: Group, pk: int, c: Company, x: int, n: nat)
    requires pk !in g && Above(g, x, n)
    ensures Above(g[pk := c], x, n)
    decreases n
  {
    if n > 0 { NewStaysTopped(g, pk, c, g[x].parent.value, n - 1); }
  }

  lemma StepKeepsGroup(g: Group, step: Step)
    requires Linked(g) && Acyclic(g) && OnePrimary(g)
    ensures Linked(After(g, step)) && Acyclic(After(g, step)) && OnePrimary(After(g, step))
  {
    StepKeepsLinks(g, step);
    match step
    case Create(id, c) =>
      if After(g, step) != g {
        if c.parent.None? {
          assert Above(g[id := c], id, 0);
        } else {
          var n: nat :| Above(g, c.parent.value, n);
          NewStaysTopped(g, id, c, c.parent.value, n);
          assert Above(g[id := c], id, n + 1);
        }
        SaveKeepsAcyclic(g, id, c);
      }
    case Edit(id, c) =>
      if id in g && HasRow(g, c.parent) && !Clashes(g, Some(id), c) && ReachesTop(g, c.parent, {id}) {
        WalkIsExact(g, id, c);
        SaveKeepsAcyclic(g, id, c);
      }
    case Delete(id) =>
      forall x | x in Without(g, id) ensures Topped(Without(g, id), x) {
        var n: nat :| Above(g, x, n);
        SurvivorsStayTopped(g, id, x, n);
      }
  }

  /** Whatever is created, edited and deleted, the group stays free of loops and has at most
      one primary company. */
  lemma {:induction false} EveryRunKeepsTheGroup(g: Group, steps: seq<Step>)
    requires Linked(g) && Acyclic(g) && OnePrimary(g)
    ensures Acyclic(Run(g, steps)) && OnePrimary(Run(g, steps))
    decreases |steps|
  {
    if steps != [] {
      StepKeepsGroup(g, steps[0]);
      EveryRunKeepsTheGroup(After(g, steps[0]), steps[1..]);
    }
  }

  // ---------- what each step is answered, and what it writes ----------

  /** Another company is the primary one already. */
  ghost predicate HasOtherPrimary(g: Group, id: int) {
    exists x | x in g :: x != id && g[x].isPrimary
  }

  /** On a group without loops a save of a company whose parent exists goes through if and only
      if it makes no second primary company, and, for an edit, the company's own chain of
      parents still comes to an end; then the company is as saved and no other has moved. */
  lemma SavedExactly(g: Group, id: int, c: Company)
    requires Linked(g) && Acyclic(g)
    ensures After(g, Create(id, c)) ==
      if id !in g && HasRow(g, c.parent) && !(c.isPrimary && HasOtherPrimary(g, id)) then g[id := c] else g
    ensures After(g, Edit(id, c)) ==
      if id in g && HasRow(g, c.parent) && !(c.isPrimary && HasOtherPrimary(g, id)) && Topped(g[id := c], id)
      then g[id := c] else g
  {
    if HasRow(g, c.parent) {
      CreationIsNeverALoop(g, c);
      WalkIsExact(g, id, c);
    }
    if x :| x in g && x != id && g[x].isPrimary { assert Some(id) != Some(x); }
  }

  /** A deletion takes one company, leaves its children without a parent, and changes nothing
      else of anybody. */
  lemma DeletionIs(g: Group, id: int)
    requires Linked(g)
    ensures var h := After(g, Delete(id));
      && h.Keys == g.Keys - {id}
      && forall x | x in h ::
           h[x] == Company(if g[x].parent == Some(id) then None else g[x].parent, g[x].isPrimary, g[x].isActive)
  {
  }
}
