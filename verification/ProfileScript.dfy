/** The structure checks of `profile_script.rs` around a user script: a budget over the
    input tree, and a budget with cycle detection over the object graph it returns. */
module ProfileScript {
  import opened Wrappers

  const MAX_VALUES := 200_000
  const MAX_DEPTH := 128

  // ---------- trees and their measures ----------

  /** The shape of a value: its children in order. */
  datatype Tree = Node(children: seq<Tree>)

  function Size(t: Tree): nat
    decreases t
  {
    1 + SizeAll(t.children)
  }

  function SizeAll(ts: seq<Tree>): nat
    decreases ts
  {
    if ts == [] then 0 else SizeAll(ts[..|ts| - 1]) + Size(ts[|ts| - 1])
  }

  /** Edges on the longest way down. */
  function Height(t: Tree): nat
    decreases t
  {
    if t.children == [] then 0 else 1 + HeightAll(t.children)
  }

  function HeightAll(ts: seq<Tree>): nat
    decreases ts
  {
    if ts == [] then 0 else Max(HeightAll(ts[..|ts| - 1]), Height(ts[|ts| - 1]))
  }

  function Max(a: nat, b: nat): nat {
    if a < b then b else a
  }

  /** The mutable state both checks thread through their recursion. */
  class Limits<Id(==)> {
    var remaining: nat
    var seen: set<Id>

    constructor (remaining: nat)
      ensures this.remaining == remaining && seen == {}
    {
      this.remaining := remaining;
      seen := {};
    }
  }

  // ---------- the input check ----------

  /** `check_input`: a JSON tree, whose scalars have no children. On success the budget has
      dropped by exactly the number of values. */
  method CheckInput(value: Tree, depth: nat, limits: Limits<nat>) returns (ok: bool)
    modifies limits
    ensures limits.seen == old(limits.seen) && limits.remaining <= old(limits.remaining)
    ensures ok <==> depth + Height(value) <= MAX_DEPTH && Size(value) <= old(limits.remaining)
    ensures ok ==> limits.remaining == old(limits.remaining) - Size(value)
    decreases value
  {
    if depth > MAX_DEPTH || limits.remaining == 0 {
      return false;
    }
    limits.remaining := limits.remaining - 1;
    var children := value.children;
    for i := 0 to |children|
      invariant limits.seen == old(limits.seen)
      invariant 1 + SizeAll(children[..i]) <= old(limits.remaining)
      invariant limits.remaining == old(limits.remaining) - 1 - SizeAll(children[..i])
      invariant i > 0 ==> depth + 1 + HeightAll(children[..i]) <= MAX_DEPTH
    {
      assert children[..i + 1][..i] == children[..i];
      var before := limits.remaining;
      var fits := CheckInput(children[i], depth + 1, limits);
      if !fits {
        MeasuresGrow(children, i);
        return false;
      }
    }
    assert children[..|children|] == children;
    return true;
  }

  /** The measures of a prefix and of one element bound those of the whole list. */
  lemma {:induction false} MeasuresGrow(ts: seq<Tree>, i: nat)
    requires i < |ts|
    ensures SizeAll(ts[..i]) + Size(ts[i]) <= SizeAll(ts)
    ensures Height(ts[i]) <= HeightAll(ts)
    decreases |ts|
  {
    var n := |ts| - 1;
    if i < n {
      MeasuresGrow(ts[..n], i);
      assert ts[..n][..i] == ts[..i];
    }
  }

  // ---------- the output check ----------

  /** A script result is a scalar or an object; objects may share and form cycles. */
  datatype Ref<Id> = Scalar | Object(id: Id)

  /** One object: the values of its own properties, and its length when it is an array. */
  datatype Obj<Id> = Obj(members: seq<Ref<Id>>, length: Option<nat>)

  type Graph<Id(==)> = map<Id, Obj<Id>>

  /** Every referenced object exists. */
  predicate Closed<Id>(g: Graph<Id>) {
    forall id, i | id in g && 0 <= i < |g[id].members| && g[id].members[i].Object? :: g[id].members[i].id in g
  }

  predicate Within<Id>(g: Graph<Id>, value: Ref<Id>) {
    value.Object? ==> value.id in g
  }

  predicate LengthAllowed<Id>(node: Obj<Id>) {
    node.length.Some? ==> node.length.value <= MAX_VALUES
  }

  /** Result of a check: whether it passed and the budget left. */
  datatype Checked = Passed(remaining: nat) | Failed

  /** How many levels are still allowed from here. */
  function Room(depth: nat): nat {
    if depth > MAX_DEPTH then 0 else MAX_DEPTH + 1 - depth
  }

  /** What `check_output` decides, with the path set as a value. */
  function Check<Id>(g: Graph<Id>, value: Ref<Id>, depth: nat, remaining: nat, seen: set<Id>): Checked
    requires Closed(g) && Within(g, value)
    decreases Room(depth), 1, 0
  {
    if depth > MAX_DEPTH || remaining == 0 then Failed
    else if value.Scalar? then Passed(remaining - 1)
    else if value.id in seen then Failed
    else if !LengthAllowed(g[value.id]) then Failed
    else if |g[value.id].members| > remaining - 1 then Failed
    else CheckMembers(g, value.id, |g[value.id].members|, depth, remaining - 1, seen + {value.id})
  }

  function CheckMembers<Id>(g: Graph<Id>, id: Id, n: nat, depth: nat, remaining: nat, seen: set<Id>): Checked
    requires Closed(g) && id in g && n <= |g[id].members| && depth <= MAX_DEPTH
    decreases Room(depth), 0, n
  {
    if n == 0 then Passed(remaining)
    else match CheckMembers(g, id, n - 1, depth, remaining, seen)
      case Failed => Failed
      case Passed(left) => Check(g, g[id].members[n - 1], depth + 1, left, seen)
  }

  lemma {:induction false} FailedStays<Id>(g: Graph<Id>, id: Id, n: nat, depth: nat, remaining: nat, seen: set<Id>)
    requires Closed(g) && id in g && n <= |g[id].members| && depth <= MAX_DEPTH
    requires CheckMembers(g, id, n, depth, remaining, seen).Failed?
    ensures CheckMembers(g, id, |g[id].members|, depth, remaining, seen).Failed?
    decreases |g[id].members| - n
  {
    if n < |g[id].members| {
      FailedStays(g, id, n + 1, depth, remaining, seen);
    }
  }

  /** `check_output`: when it passes, the path set is back to what it was. */
  method CheckOutput<Id>(g: Graph<Id>, value: Ref<Id>, depth: nat, limits: Limits<Id>) returns (ok: bool)
    requires Closed(g) && Within(g, value)
    modifies limits
    ensures match Check(g, value, depth, old(limits.remaining), old(limits.seen))
      case Failed => !ok
      case Passed(left) => ok && limits.remaining == left && limits.seen == old(limits.seen)
    decreases Room(depth)
  {
    if depth > MAX_DEPTH || limits.remaining == 0 {
      return false;
    }
    limits.remaining := limits.remaining - 1;
    if value.Object? {
      if value.id in limits.seen {
        return false;
      }
      limits.seen := limits.seen + {value.id};
      var node := g[value.id];
      if node.length.Some? && node.length.value > MAX_VALUES {
        return false;
      }
      if |node.members| > limits.remaining {
        return false;
      }
      var path := limits.seen;
      for i := 0 to |node.members|
        invariant limits.seen == path
        invariant CheckMembers(g, value.id, i, depth, old(limits.remaining) - 1, path) == Passed(limits.remaining)
      {
        var fits := CheckOutput(g, node.members[i], depth + 1, limits);
        if !fits {
          FailedStays(g, value.id, i + 1, depth, old(limits.remaining) - 1, path);
          return false;
        }
      }
      limits.seen := limits.seen - {value.id};
    }
    return true;
  }

  // ---------- the unfolding ----------

  /** `t` is the finite tree that the references from `value` unfold to. */
  predicate Unfolds<Id>(g: Graph<Id>, value: Ref<Id>, t: Tree)
    decreases t
  {
    if value.Scalar? then t.children == []
    else (
      && value.id in g && |t.children| == |g[value.id].members|
      && forall i | 0 <= i < |t.children| :: Unfolds(g, g[value.id].members[i], t.children[i]))
  }

  /** A value unfolds to one tree at most. */
  lemma {:induction false} UnfoldingIsUnique<Id>(g: Graph<Id>, value: Ref<Id>, s: Tree, t: Tree)
    requires Unfolds(g, value, s) && Unfolds(g, value, t)
    ensures s == t
    decreases s
  {
    if value.Object? {
      forall i | 0 <= i < |s.children|
        ensures s.children[i] == t.children[i]
      {
        UnfoldingIsUnique(g, g[value.id].members[i], s.children[i], t.children[i]);
      }
      assert s.children == t.children;
    }
  }

  /** A path of objects along references, starting at the object `value` refers to. */
  predicate Path<Id>(g: Graph<Id>, value: Ref<Id>, ids: seq<Id>)
    decreases |ids|
  {
    ids == [] ||
    (&& value == Object(ids[0]) && ids[0] in g
     && (|ids| > 1 ==> exists i | 0 <= i < |g[ids[0]].members| :: Path(g, g[ids[0]].members[i], ids[1..])))
  }

  /** No path from `value` meets the same object twice. */
  ghost predicate Acyclic<Id(!new)>(g: Graph<Id>, value: Ref<Id>) {
    forall ids: seq<Id> | Path(g, value, ids) :: Distinct(ids)
  }

  predicate Distinct<Id(==)>(ids: seq<Id>) {
    forall i, j | 0 <= i < j < |ids| :: ids[i] != ids[j]
  }

  /** Every array on the way has an allowed length, and no object is in `seen`. */
  predicate Clean<Id>(g: Graph<Id>, value: Ref<Id>, t: Tree, seen: set<Id>)
    requires Unfolds(g, value, t)
    decreases t
  {
    value.Object? ==>
      && value.id !in seen && LengthAllowed(g[value.id])
      && forall i | 0 <= i < |t.children| :: Clean(g, g[value.id].members[i], t.children[i], seen)
  }

  // ---------- acceptance means a small finite unfolding ----------

  lemma {:induction false} CleanWithLess<Id>(g: Graph<Id>, value: Ref<Id>, t: Tree, seen: set<Id>, less: set<Id>)
    requires Unfolds(g, value, t) && Clean(g, value, t, seen) && less <= seen
    ensures Clean(g, value, t, less)
    decreases t
  {
    if value.Object? {
      forall i | 0 <= i < |t.children|
        ensures Clean(g, g[value.id].members[i], t.children[i], less)
      {
        CleanWithLess(g, g[value.id].members[i], t.children[i], seen, less);
      }
    }
  }

  /** `ts` are the unfoldings of the first members of an object, avoiding `seen`. */
  predicate MembersUnfold<Id>(g: Graph<Id>, id: Id, ts: seq<Tree>, seen: set<Id>) {
    && id in g && |ts| <= |g[id].members|
    && (forall i | 0 <= i < |ts| :: Unfolds(g, g[id].members[i], ts[i]))
    && (forall i | 0 <= i < |ts| :: Clean(g, g[id].members[i], ts[i], seen))
  }

  /** What passes has a finite unfolding within both limits, and used up exactly its size. */
  lemma {:induction false} PassedUnfolds<Id>(g: Graph<Id>, value: Ref<Id>, depth: nat, remaining: nat, seen: set<Id>)
    returns (t: Tree)
    requires Closed(g) && Within(g, value)
    requires Check(g, value, depth, remaining, seen).Passed?
    ensures Unfolds(g, value, t) && Clean(g, value, t, seen)
    ensures depth + Height(t) <= MAX_DEPTH && Size(t) <= remaining
    ensures Check(g, value, depth, remaining, seen).remaining == remaining - Size(t)
    decreases Room(depth), 1, 0
  {
    if value.Scalar? {
      t := Node([]);
    } else {
      var n := |g[value.id].members|;
      var ts := PassedMembers(g, value.id, n, depth, remaining - 1, seen + {value.id});
      t := Node(ts);
      forall i | 0 <= i < n
        ensures Clean(g, g[value.id].members[i], ts[i], seen)
      {
        CleanWithLess(g, g[value.id].members[i], ts[i], seen + {value.id}, seen);
      }
    }
  }

  lemma {:induction false} PassedMembers<Id>(g: Graph<Id>, id: Id, n: nat, depth: nat, remaining: nat, seen: set<Id>)
    returns (ts: seq<Tree>)
    requires Closed(g) && id in g && n <= |g[id].members| && depth <= MAX_DEPTH
    requires CheckMembers(g, id, n, depth, remaining, seen).Passed?
    ensures |ts| == n && MembersUnfold(g, id, ts, seen)
    ensures n > 0 ==> depth + 1 + HeightAll(ts) <= MAX_DEPTH
    ensures SizeAll(ts) <= remaining
    ensures CheckMembers(g, id, n, depth, remaining, seen).remaining == remaining - SizeAll(ts)
    decreases Room(depth), 0, n
  {
    if n == 0 {
      ts := [];
    } else {
      var front := PassedMembers(g, id, n - 1, depth, remaining, seen);
      var left := CheckMembers(g, id, n - 1, depth, remaining, seen).remaining;
      var last := PassedUnfolds(g, g[id].members[n - 1], depth + 1, left, seen);
      ts := front + [last];
      assert ts[..n - 1] == front;
    }
  }

  // ---------- a small finite unfolding means acceptance ----------

  /** A finite unfolding does not meet its own root again, so the root may join the path set. */
  lemma {:induction false} RootNotInside<Id>(g: Graph<Id>, id: Id, t: Tree, value: Ref<Id>, s: Tree, seen: set<Id>)
    requires Unfolds(g, Object(id), t) && Unfolds(g, value, s) && Size(s) < Size(t)
    requires Clean(g, value, s, seen)
    ensures Clean(g, value, s, seen + {id})
    decreases s
  {
    if value == Object(id) {
      UnfoldingIsUnique(g, value, s, t);
      assert false;
    } else if value.Object? {
      forall i | 0 <= i < |s.children|
        ensures Clean(g, g[value.id].members[i], s.children[i], seen + {id})
      {
        MeasuresGrow(s.children, i);
        RootNotInside(g, id, t, g[value.id].members[i], s.children[i], seen);
      }
    }
  }

  lemma {:induction false} SizeCountsChildren(ts: seq<Tree>)
    ensures |ts| <= SizeAll(ts)
  {
    if ts != [] {
      SizeCountsChildren(ts[..|ts| - 1]);
    }
  }

  /** What has such an unfolding passes. */
  lemma {:induction false} UnfoldsPasses<Id>(g: Graph<Id>, value: Ref<Id>, t: Tree, depth: nat, remaining: nat, seen: set<Id>)
    requires Closed(g) && Within(g, value)
    requires Unfolds(g, value, t) && Clean(g, value, t, seen)
    requires depth + Height(t) <= MAX_DEPTH && Size(t) <= remaining
    ensures Check(g, value, depth, remaining, seen) == Passed(remaining - Size(t))
    decreases Size(t), 0
  {
    if value.Object? {
      var n := |t.children|;
      SizeCountsChildren(t.children);
      forall i | 0 <= i < n
        ensures Clean(g, g[value.id].members[i], t.children[i], seen + {value.id})
      {
        MeasuresGrow(t.children, i);
        RootNotInside(g, value.id, t, g[value.id].members[i], t.children[i], seen);
      }
      MembersPass(g, value.id, t.children, depth, remaining - 1, seen + {value.id});
    }
  }

  lemma {:induction false} MembersPass<Id>(g: Graph<Id>, id: Id, ts: seq<Tree>, depth: nat, remaining: nat, seen: set<Id>)
    requires Closed(g) && MembersUnfold(g, id, ts, seen)
    requires depth <= MAX_DEPTH && (ts != [] ==> depth + 1 + HeightAll(ts) <= MAX_DEPTH)
    requires SizeAll(ts) <= remaining
    ensures CheckMembers(g, id, |ts|, depth, remaining, seen) == Passed(remaining - SizeAll(ts))
    decreases SizeAll(ts), 1
  {
    if ts != [] {
      var front, last := ts[..|ts| - 1], ts[|ts| - 1];
      assert MembersUnfold(g, id, front, seen);
      MembersPass(g, id, front, depth, remaining, seen);
      UnfoldsPasses(g, g[id].members[|ts| - 1], last, depth + 1, remaining - SizeAll(front), seen);
    }
  }

  // ---------- a finite unfolding exists exactly when there is no cycle ----------

  ghost predicate Finite<Id>(g: Graph<Id>, value: Ref<Id>) {
    exists t :: Unfolds(g, value, t)
  }

  /** The tree `value` unfolds to. */
  ghost function Unfolding<Id>(g: Graph<Id>, value: Ref<Id>): (t: Tree)
    requires Finite(g, value)
    ensures Unfolds(g, value, t)
    ensures forall s | Unfolds(g, value, s) :: s == t
  {
    var t :| Unfolds(g, value, t);
    assert forall s | Unfolds(g, value, s) :: s == t by {
      forall s | Unfolds(g, value, s)
        ensures s == t
      {
        UnfoldingIsUnique(g, value, s, t);
      }
    }
    t
  }

  lemma {:induction false} PathSuffix<Id>(g: Graph<Id>, value: Ref<Id>, ids: seq<Id>, i: nat)
    requires Path(g, value, ids) && i < |ids|
    ensures Path(g, Object(ids[i]), ids[i..])
    decreases i
  {
    if i == 0 {
      assert ids[0..] == ids;
    } else {
      var k :| 0 <= k < |g[ids[0]].members| && Path(g, g[ids[0]].members[k], ids[1..]);
      PathSuffix(g, g[ids[0]].members[k], ids[1..], i - 1);
      assert ids[1..][i - 1..] == ids[i..];
    }
  }

  /** Walking down a path walks down the unfolding. */
  lemma {:induction false} PathUnfolds<Id>(g: Graph<Id>, value: Ref<Id>, t: Tree, ids: seq<Id>, k: nat)
    returns (s: Tree)
    requires Unfolds(g, value, t) && Path(g, value, ids) && k < |ids|
    ensures Unfolds(g, Object(ids[k]), s) && Size(s) + k <= Size(t)
    decreases k
  {
    if k == 0 {
      s := t;
    } else {
      var i :| 0 <= i < |g[ids[0]].members| && Path(g, g[ids[0]].members[i], ids[1..]);
      MeasuresGrow(t.children, i);
      s := PathUnfolds(g, g[ids[0]].members[i], t.children[i], ids[1..], k - 1);
    }
  }

  /** On a path that met an object twice the unfolding would be smaller than itself. */
  lemma {:induction false} FiniteIsAcyclic<Id(!new)>(g: Graph<Id>, value: Ref<Id>)
    requires Finite(g, value)
    ensures Acyclic(g, value)
  {
    var t := Unfolding(g, value);
    forall ids: seq<Id>, i, j | Path(g, value, ids) && 0 <= i < j < |ids|
      ensures ids[i] != ids[j]
    {
      var upper := PathUnfolds(g, value, t, ids, i);
      PathSuffix(g, value, ids, i);
      var lower := PathUnfolds(g, Object(ids[i]), upper, ids[i..], j - i);
      if ids[i] == ids[j] {
        UnfoldingIsUnique(g, Object(ids[i]), upper, lower);
      }
    }
  }

  /** Every path from `value` is free of repeats and of `visited`. */
  ghost predicate AcyclicOutside<Id(!new)>(g: Graph<Id>, value: Ref<Id>, visited: set<Id>) {
    forall ids: seq<Id> | Path(g, value, ids) :: Distinct(ids) && forall id | id in ids :: id !in visited
  }

  /** The objects not visited yet bound the recursion. */
  lemma {:induction false} AcyclicIsFinite<Id(!new)>(g: Graph<Id>, value: Ref<Id>, visited: set<Id>)
    requires Closed(g) && Within(g, value) && AcyclicOutside(g, value, visited)
    ensures Finite(g, value)
    decreases g.Keys - visited
  {
    if value.Scalar? {
      assert Unfolds(g, value, Node([]));
    } else {
      assert Path(g, value, [value.id]);
      assert value.id !in visited by { assert value.id in [value.id]; }
      var members := g[value.id].members;
      forall i | 0 <= i < |members|
        ensures Finite(g, members[i])
      {
        StepStaysAcyclic(g, value, visited, i);
        AcyclicIsFinite(g, members[i], visited + {value.id});
      }
      var children := seq(|members|, i requires 0 <= i < |members| => Unfolding(g, members[i]));
      assert Unfolds(g, value, Node(children));
    }
  }

  lemma {:induction false} StepStaysAcyclic<Id(!new)>(g: Graph<Id>, value: Ref<Id>, visited: set<Id>, i: nat)
    requires Closed(g) && value.Object? && value.id in g && i < |g[value.id].members|
    requires AcyclicOutside(g, value, visited)
    ensures AcyclicOutside(g, g[value.id].members[i], visited + {value.id})
  {
    forall ids: seq<Id> | Path(g, g[value.id].members[i], ids)
      ensures Distinct(ids) && forall id | id in ids :: id !in visited + {value.id}
    {
      var longer := [value.id] + ids;
      assert longer[1..] == ids;
      assert ids != [] ==> Path(g, g[longer[0]].members[i], longer[1..]);
      assert Path(g, value, longer);
      forall a, b | 0 <= a < b < |ids|
        ensures ids[a] != ids[b]
      {
        assert longer[a + 1] != longer[b + 1];
      }
      forall k | 0 <= k < |ids|
        ensures ids[k] !in visited + {value.id}
      {
        assert longer[k + 1] in longer && longer[0] != longer[k + 1];
      }
    }
  }

  /** Finite unfoldings and the absence of cycles are the same thing. */
  lemma {:induction false} FiniteExactlyWhenAcyclic<Id(!new)>(g: Graph<Id>, value: Ref<Id>)
    requires Closed(g) && Within(g, value)
    ensures Finite(g, value) <==> Acyclic(g, value)
  {
    if Finite(g, value) {
      FiniteIsAcyclic(g, value);
    }
    if Acyclic(g, value) {
      assert AcyclicOutside(g, value, {});
      AcyclicIsFinite(g, value, {});
    }
  }

  /** The last object of a path is none of `seen`, and no array longer than the limit. */
  ghost predicate EndsAllowed<Id>(g: Graph<Id>, ids: seq<Id>, seen: set<Id>) {
    ids != [] ==>
      var id := ids[|ids| - 1];
      id in g && id !in seen && (g[id].length.Some? ==> g[id].length.value <= 200_000)
  }

  /** Every path ends in an allowed object, so every object on the way is one. */
  ghost predicate AllAllowed<Id(!new)>(g: Graph<Id>, value: Ref<Id>, seen: set<Id>) {
    forall ids: seq<Id> | Path(g, value, ids) :: EndsAllowed(g, ids, seen)
  }

  lemma MemberPath<Id>(g: Graph<Id>, id: Id, i: nat, ids: seq<Id>)
    requires id in g && i < |g[id].members| && Path(g, g[id].members[i], ids)
    ensures Path(g, Object(id), [id] + ids)
  {
    var longer := [id] + ids;
    assert longer[1..] == ids;
    assert Path(g, g[longer[0]].members[i], longer[1..]);
  }

  lemma {:induction false} CleanExactly<Id(!new)>(g: Graph<Id>, value: Ref<Id>, t: Tree, seen: set<Id>)
    requires Unfolds(g, value, t)
    ensures Clean(g, value, t, seen) <==> AllAllowed(g, value, seen)
    decreases t
  {
    if value.Object? {
      var members := g[value.id].members;
      forall i | 0 <= i < |t.children|
        ensures Clean(g, members[i], t.children[i], seen) <==> AllAllowed(g, members[i], seen)
      {
        CleanExactly(g, members[i], t.children[i], seen);
      }
      if Clean(g, value, t, seen) {
        forall ids: seq<Id> | Path(g, value, ids)
          ensures EndsAllowed(g, ids, seen)
        {
          AllowedBelow(g, value, t, seen, ids);
        }
      }
      if AllAllowed(g, value, seen) {
        assert Path(g, value, [value.id]);
        assert EndsAllowed(g, [value.id], seen);
        forall i | 0 <= i < |t.children|
          ensures AllAllowed(g, members[i], seen)
        {
          AllowedInMember(g, value.id, i, seen);
        }
      }
    }
  }

  lemma AllowedBelow<Id(!new)>(g: Graph<Id>, value: Ref<Id>, t: Tree, seen: set<Id>, ids: seq<Id>)
    requires value.Object? && Unfolds(g, value, t) && Clean(g, value, t, seen) && Path(g, value, ids)
    requires forall i | 0 <= i < |t.children| :: AllAllowed(g, g[value.id].members[i], seen)
    ensures EndsAllowed(g, ids, seen)
  {
    if |ids| > 1 {
      var i :| 0 <= i < |g[ids[0]].members| && Path(g, g[ids[0]].members[i], ids[1..]);
      assert EndsAllowed(g, ids[1..], seen);
    }
  }

  lemma AllowedInMember<Id(!new)>(g: Graph<Id>, id: Id, i: nat, seen: set<Id>)
    requires id in g && i < |g[id].members| && AllAllowed(g, Object(id), seen)
    ensures AllAllowed(g, g[id].members[i], seen)
  {
    forall ids: seq<Id> | Path(g, g[id].members[i], ids)
      ensures EndsAllowed(g, ids, seen)
    {
      MemberPath(g, id, i, ids);
      assert EndsAllowed(g, [id] + ids, seen);
    }
  }

  /** `check_output` at any point of its recursion accepts exactly the acyclic values on whose
      paths no object is in `seen` and no array is too long, and whose unfolding fits both limits;
      and then it spends exactly the size of the unfolding. */
  lemma {:induction false} CheckAcceptsExactly<Id(!new)>(g: Graph<Id>, value: Ref<Id>, depth: nat, remaining: nat, seen: set<Id>)
    requires Closed(g) && Within(g, value)
    ensures Check(g, value, depth, remaining, seen).Passed?
       <==> && Acyclic(g, value) && AllAllowed(g, value, seen)
            && Finite(g, value) && depth + Height(Unfolding(g, value)) <= 128 && Size(Unfolding(g, value)) <= remaining
    ensures Check(g, value, depth, remaining, seen).Passed?
        ==> Check(g, value, depth, remaining, seen).remaining == remaining - Size(Unfolding(g, value))
  {
    FiniteExactlyWhenAcyclic(g, value);
    if Check(g, value, depth, remaining, seen).Passed? {
      var t := PassedUnfolds(g, value, depth, remaining, seen);
      assert t == Unfolding(g, value);
      CleanExactly(g, value, t, seen);
    }
    if Finite(g, value) {
      CleanExactly(g, value, Unfolding(g, value), seen);
      if AllAllowed(g, value, seen) && depth + Height(Unfolding(g, value)) <= 128 && Size(Unfolding(g, value)) <= remaining {
        UnfoldsPasses(g, value, Unfolding(g, value), depth, remaining, seen);
      }
    }
  }
}
