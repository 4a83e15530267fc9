/** The order in which the module writes its types, constants and
    module-scope variables (`TopologicalSort` in SPIRVModule.cpp): a
    depth-first search over the operand graph that emits every entry after
    its operands, as section 2.4 "Logical Layout of a Module" of the Khronos
    SPIR-V specification demands, and breaks a cycle through a pointer type
    with an `OpTypeForwardPointer` declaration. The output is four buckets
    written one after the other: integer types, integer constants, other
    types, then the other constants and the variables. */
module TopoSort {
  import opened OpCodes
  import opened Sequences
  import SpirvModule

  type Id = SpirvModule.Id

  /** An entry as the sort sees it: its opcode, whether its type is an
      integer type (for constants), and its operand ids. */
  datatype Node = Node(opCode: OpCode, intTyped: bool, operands: seq<Id>)

  type Graph = map<Id, Node>

  datatype DFSState = Unvisited | Discovered | Visited

  /** The bucket the source appends an entry to: integer types, integer
      constants, other types, everything else. */
  function KindBucket(n: Node): (b: nat)
    ensures b < 4
  {
    if n.opCode == OpTypeInt then 0
    else if IsConstantOpCode(n.opCode) then (if n.intTyped then 1 else 3)
    else if IsTypeOpCode(n.opCode) then 2
    else 3
  }

  predicate IsPointer(n: Node) {
    n.opCode == OpTypePointer || n.opCode == OpTypeUntypedPointerKHR
  }

  /** Every operand is an entry of the graph. */
  predicate Closed(g: Graph) {
    forall x :: x in g ==> forall o :: o in g[x].operands ==> o in g
  }

  /** Every operand has a smaller id than its user: ids were handed out in
      creation order and no cycle needs breaking. */
  predicate OperandsBelow(g: Graph) {
    forall x :: x in g ==> forall o :: o in g[x].operands ==> o < x
  }

  /** Every operand belongs to the same or an earlier bucket than its user. */
  predicate KindMonotone(g: Graph) {
    forall x :: x in g ==> forall o :: o in g[x].operands && o in g ==> KindBucket(g[o]) <= KindBucket(g[x])
  }

  /** The largest bucket among the operands that have one. */
  function MaxBucketOf(ops: seq<Id>, bucketOf: map<Id, nat>): (r: nat)
    ensures forall o :: o in ops && o in bucketOf ==> bucketOf[o] <= r
    ensures r == 0 || exists o :: o in ops && o in bucketOf && bucketOf[o] == r
  {
    if ops == [] then 0
    else
      var init := MaxBucketOf(ops[..|ops| - 1], bucketOf);
      var last := ops[|ops| - 1];
      assert ops == ops[..|ops| - 1] + [last];
      SpirvModule.Max(init, if last in bucketOf then bucketOf[last] else 0)
  }

  /** The four buckets of the entries emitted in order `log`, written one
      after the other. */
  function OutputOf(log: seq<Id>, bucketOf: map<Id, nat>): seq<Id> {
    Bucket(log, bucketOf, 0) + Bucket(log, bucketOf, 1) + Bucket(log, bucketOf, 2) + Bucket(log, bucketOf, 3)
  }

  /** Declare before use: every entry's operands come before it, unless
      they are forward declared. */
  predicate DeclaredBeforeUse(g: Graph, forward: set<Id>, s: seq<Id>) {
    forall k :: 0 <= k < |s| ==> s[k] in g && forall o :: o in g[s[k]].operands ==> o in forward || o in s[..k]
  }

  /** What the search keeps about the emitted entries: each was emitted
      after its operands, into a bucket no earlier than theirs, unless the
      operand was forward declared. */
  predicate Emitted(g: Graph, log: seq<Id>, bucketOf: map<Id, nat>, forward: set<Id>)
    decreases |log|
  {
    log == [] ||
    var init, x := log[..|log| - 1], log[|log| - 1];
    && Emitted(g, init, bucketOf, forward)
    && x in g && x in bucketOf && bucketOf[x] < 4
    && forall o :: o in g[x].operands ==> o in forward || (o in init && o in bucketOf && bucketOf[o] <= bucketOf[x])
  }

  lemma {:induction false} EmittedInGraph(g: Graph, log: seq<Id>, bucketOf: map<Id, nat>, forward: set<Id>)
    requires Emitted(g, log, bucketOf, forward)
    ensures forall x :: x in log ==> x in g && x in bucketOf && bucketOf[x] < 4
    decreases |log|
  {
    if log != [] {
      var init := log[..|log| - 1];
      EmittedInGraph(g, init, bucketOf, forward);
      assert log == init + [log[|log| - 1]];
    }
  }

  /** Putting an entry whose operands all come before the insertion point
      into the middle of an ordered sequence keeps it ordered. */
  lemma InsertKeepsOrder(g: Graph, forward: set<Id>, s1: seq<Id>, s2: seq<Id>, x: Id)
    requires DeclaredBeforeUse(g, forward, s1 + s2) && NoDuplicates(s1 + s2)
    requires x in g && x !in s1 + s2
    requires forall o :: o in g[x].operands ==> o in forward || o in s1
    ensures DeclaredBeforeUse(g, forward, s1 + [x] + s2) && NoDuplicates(s1 + [x] + s2)
  {
    var s, t := s1 + s2, s1 + [x] + s2;
    forall k | 0 <= k < |t|
      ensures t[k] in g && forall o :: o in g[t[k]].operands ==> o in forward || o in t[..k]
    {
      if k < |s1| {
        assert t[k] == s[k] && t[..k] == s[..k];
      } else if k == |s1| {
        assert t[..k] == s1;
      } else {
        assert t[k] == s[k - 1];
        assert forall y :: y in s[..k - 1] ==> y in t[..k] by {
          forall y | y in s[..k - 1] ensures y in t[..k] {
            var i :| 0 <= i < k - 1 && s[i] == y;
            if i < |s1| { assert t[i] == y; } else { assert t[i + 1] == y; }
          }
        }
      }
    }
    forall i, j | 0 <= i < j < |t|
      ensures t[i] != t[j]
    {
      if i == |s1| {
        assert t[j] == s[j - 1];
      } else if j == |s1| {
        assert t[i] == s[i];
      } else {
        var i', j' := if i < |s1| then i else i - 1, if j < |s1| then j else j - 1;
        assert t[i] == s[i'] && t[j] == s[j'] && i' < j';
      }
    }
  }

  /** The entries of `log` filed in bucket `b`, in emission order. */
  function Bucket(log: seq<Id>, bucketOf: map<Id, nat>, b: nat): seq<Id>
    decreases |log|
  {
    if log == [] then []
    else
      var x := log[|log| - 1];
      Bucket(log[..|log| - 1], bucketOf, b) + (if x in bucketOf && bucketOf[x] == b then [x] else [])
  }

  lemma {:induction false} BucketMembers(log: seq<Id>, bucketOf: map<Id, nat>, b: nat)
    ensures forall y :: y in Bucket(log, bucketOf, b) <==> y in log && y in bucketOf && bucketOf[y] == b
    decreases |log|
  {
    if log != [] {
      var init := log[..|log| - 1];
      BucketMembers(init, bucketOf, b);
      assert log == init + [log[|log| - 1]];
    }
  }

  /** An entry is in the output exactly when it was emitted into one of
      the four buckets. */
  lemma OutputMembers(log: seq<Id>, bucketOf: map<Id, nat>)
    ensures forall y :: y in OutputOf(log, bucketOf) <==> y in log && y in bucketOf && bucketOf[y] < 4
  {
    BucketMembers(log, bucketOf, 0);
    BucketMembers(log, bucketOf, 1);
    BucketMembers(log, bucketOf, 2);
    BucketMembers(log, bucketOf, 3);
  }

  /** Of four slices, those up to and including slice `c`, and those after
      it. */
  function Low<T>(b0: seq<T>, b1: seq<T>, b2: seq<T>, b3: seq<T>, c: nat): seq<T> {
    match c
    case 0 => b0
    case 1 => b0 + b1
    case 2 => b0 + b1 + b2
    case _ => b0 + b1 + b2 + b3
  }

  function High<T>(b0: seq<T>, b1: seq<T>, b2: seq<T>, b3: seq<T>, c: nat): seq<T> {
    match c
    case 0 => b1 + b2 + b3
    case 1 => b2 + b3
    case 2 => b3
    case _ => []
  }

  function AddIf<T>(b: seq<T>, x: T, add: bool): seq<T> {
    if add then b + [x] else b
  }

  /** Appending `x` to slice `c` puts it between the slices up to `c` and
      those after it. */
  lemma InsertIntoSlice<T>(b0: seq<T>, b1: seq<T>, b2: seq<T>, b3: seq<T>, x: T, c: nat)
    requires c < 4
    ensures b0 + b1 + b2 + b3 == Low(b0, b1, b2, b3, c) + High(b0, b1, b2, b3, c)
    ensures AddIf(b0, x, c == 0) + AddIf(b1, x, c == 1) + AddIf(b2, x, c == 2) + AddIf(b3, x, c == 3)
            == Low(b0, b1, b2, b3, c) + [x] + High(b0, b1, b2, b3, c)
  {
    if c == 0 {
      assert b0 + b1 + b2 + b3 == b0 + (b1 + b2 + b3);
      assert (b0 + [x]) + b1 + b2 + b3 == b0 + [x] + (b1 + b2 + b3);
    } else if c == 1 {
      assert b0 + b1 + b2 + b3 == (b0 + b1) + (b2 + b3);
      assert b0 + (b1 + [x]) + b2 + b3 == (b0 + b1) + [x] + (b2 + b3);
    } else if c == 2 {
      assert b0 + b1 + (b2 + [x]) + b3 == (b0 + b1 + b2) + [x] + b3;
    } else {
      assert b0 + b1 + b2 + b3 + [] == b0 + b1 + b2 + b3;
    }
  }

  function Lower(log: seq<Id>, bucketOf: map<Id, nat>, c: nat): seq<Id> {
    Low(Bucket(log, bucketOf, 0), Bucket(log, bucketOf, 1), Bucket(log, bucketOf, 2), Bucket(log, bucketOf, 3), c)
  }

  function Upper(log: seq<Id>, bucketOf: map<Id, nat>, c: nat): seq<Id> {
    High(Bucket(log, bucketOf, 0), Bucket(log, bucketOf, 1), Bucket(log, bucketOf, 2), Bucket(log, bucketOf, 3), c)
  }

  lemma BucketAppend(log: seq<Id>, bucketOf: map<Id, nat>, x: Id, c: nat)
    requires x in bucketOf
    ensures Bucket(log + [x], bucketOf, c) == AddIf(Bucket(log, bucketOf, c), x, bucketOf[x] == c)
  {
    assert (log + [x])[..|log|] == log;
  }

  /** Emitting `x` puts it between the buckets up to its own and those
      after it. */
  lemma OutputAppend(log: seq<Id>, bucketOf: map<Id, nat>, x: Id)
    requires x in bucketOf && bucketOf[x] < 4
    ensures OutputOf(log, bucketOf) == Lower(log, bucketOf, bucketOf[x]) + Upper(log, bucketOf, bucketOf[x])
    ensures OutputOf(log + [x], bucketOf)
            == Lower(log, bucketOf, bucketOf[x]) + [x] + Upper(log, bucketOf, bucketOf[x])
  {
    BucketAppend(log, bucketOf, x, 0);
    BucketAppend(log, bucketOf, x, 1);
    BucketAppend(log, bucketOf, x, 2);
    BucketAppend(log, bucketOf, x, 3);
    InsertIntoSlice(Bucket(log, bucketOf, 0), Bucket(log, bucketOf, 1), Bucket(log, bucketOf, 2),
                    Bucket(log, bucketOf, 3), x, bucketOf[x]);
  }

  /** An entry of an earlier or the same bucket is among the lower buckets. */
  lemma InLower(log: seq<Id>, bucketOf: map<Id, nat>, y: Id, b: nat)
    requires y in log && y in bucketOf && bucketOf[y] <= b < 4
    ensures y in Lower(log, bucketOf, b)
  {
    BucketMembers(log, bucketOf, bucketOf[y]);
  }

  /** Writing the emitted entries bucket by bucket keeps them declared
      before use and free of duplicates. */
  lemma {:induction false} OutputDeclaredBeforeUse(g: Graph, log: seq<Id>, bucketOf: map<Id, nat>, forward: set<Id>)
    requires Emitted(g, log, bucketOf, forward) && NoDuplicates(log)
    ensures DeclaredBeforeUse(g, forward, OutputOf(log, bucketOf))
    ensures NoDuplicates(OutputOf(log, bucketOf))
  {
    if log == [] {
      assert OutputOf(log, bucketOf) == [];
    } else {
      var init, x := log[..|log| - 1], log[|log| - 1];
      assert log == init + [x];
      OutputDeclaredBeforeUse(g, init, bucketOf, forward);
      var b := bucketOf[x];
      OutputAppend(init, bucketOf, x);
      OutputMembers(init, bucketOf);
      assert x !in init;
      forall o | o in g[x].operands && o !in forward
        ensures o in Lower(init, bucketOf, b)
      {
        assert log[..|log| - 1] == init;
        InLower(init, bucketOf, o, b);
      }
      InsertKeepsOrder(g, forward, Lower(init, bucketOf, b), Upper(init, bucketOf, b), x);
    }
  }

  /** Where every emitted entry is filed by its kind, the buckets are the
      source's buckets. */
  lemma {:induction false} BucketMatchesKind(g: Graph, log: seq<Id>, bucketOf: map<Id, nat>, b: nat)
    requires forall x :: x in log ==> x in g && x in bucketOf && bucketOf[x] == KindBucket(g[x])
    ensures Bucket(log, bucketOf, b) == KindSlice(g, log, b)
    decreases |log|
  {
    if log != [] {
      BucketMatchesKind(g, log[..|log| - 1], bucketOf, b);
    }
  }

  lemma OutputMatchesKinds(g: Graph, log: seq<Id>, bucketOf: map<Id, nat>)
    requires forall x :: x in log ==> x in g && x in bucketOf && bucketOf[x] == KindBucket(g[x])
    ensures OutputOf(log, bucketOf) == AsWrittenOutput(g, log)
  {
    BucketMatchesKind(g, log, bucketOf, 0);
    BucketMatchesKind(g, log, bucketOf, 1);
    BucketMatchesKind(g, log, bucketOf, 2);
    BucketMatchesKind(g, log, bucketOf, 3);
  }

  // -------------------------------------------------------------------------
  // The buckets as written

  /** The entries of `log` whose kind puts them in bucket `b`. */
  function KindSlice(g: Graph, log: seq<Id>, b: nat): seq<Id>
    decreases |log|
  {
    if log == [] then []
    else
      var x := log[|log| - 1];
      KindSlice(g, log[..|log| - 1], b) + (if x in g && KindBucket(g[x]) == b then [x] else [])
  }

  lemma {:induction false} KindSliceMembers(g: Graph, log: seq<Id>, b: nat)
    ensures forall y :: y in KindSlice(g, log, b) <==> y in log && y in g && KindBucket(g[y]) == b
    decreases |log|
  {
    if log != [] {
      var init := log[..|log| - 1];
      KindSliceMembers(g, init, b);
      assert log == init + [log[|log| - 1]];
    }
  }

  /** The source's output: the emitted entries bucketed by kind alone. */
  function AsWrittenOutput(g: Graph, log: seq<Id>): seq<Id> {
    KindSlice(g, log, 0) + KindSlice(g, log, 1) + KindSlice(g, log, 2) + KindSlice(g, log, 3)
  }

  /** An integer type (1), a pointer to it (2), a null constant of that
      pointer type (3), and an integer spec constant
      `OpSpecConstantOp ConvertPtrToU` of the null pointer (4). */
  const PointerToIntGraph: Graph := map[
    1 := Node(OpTypeInt, false, []),
    2 := Node(OpTypePointer, false, [1]),
    3 := Node(OpConstantNull, false, [2]),
    4 := Node(OpSpecConstantOp, true, [1, 3])]

  /** Bucketing by kind writes the spec constant, an integer constant,
      before the pointer constant it converts, whatever order the search
      emitted them in. */
  lemma AsWrittenUsesBeforeDeclaration(log: seq<Id>, forward: set<Id>)
    requires 3 in log && 4 in log && 3 !in forward
    ensures OperandsBelow(PointerToIntGraph) && Closed(PointerToIntGraph)
    ensures !DeclaredBeforeUse(PointerToIntGraph, forward, AsWrittenOutput(PointerToIntGraph, log))
  {
    var g := PointerToIntGraph;
    assert KindBucket(g[3]) == 3 && KindBucket(g[4]) == 1 && KindBucket(g[1]) == 0 && KindBucket(g[2]) == 2;
    var f0, f1 := KindSlice(g, log, 0), KindSlice(g, log, 1);
    var out := AsWrittenOutput(g, log);
    KindSliceMembers(g, log, 0);
    KindSliceMembers(g, log, 1);
    assert 4 in f1;
    var i :| 0 <= i < |f1| && f1[i] == 4;
    var k := |f0| + i;
    assert out[k] == 4;
    assert out[..k] == f0 + f1[..i];
    assert 3 !in f0 && 3 !in f1;
    assert 3 in g[4].operands && 3 !in out[..k];
  }

  // -------------------------------------------------------------------------
  // The search

  function StateOf(state: map<Id, DFSState>, x: Id): DFSState {
    if x in state then state[x] else Unvisited
  }

  /** The marks agree with the search: an entry is visited exactly when it
      was emitted, and discovered exactly when it is on the current path. */
  ghost predicate Marks(state: map<Id, DFSState>, log: seq<Id>, path: set<Id>) {
    forall x :: (StateOf(state, x) == Visited <==> x in log) && (StateOf(state, x) == Discovered <==> x in path)
  }

  /** Each bucket holds, in emission order, the emitted entries filed in it. */
  ghost predicate Filed(buckets: seq<seq<Id>>, log: seq<Id>, bucketOf: map<Id, nat>) {
    && |buckets| == 4
    && (forall x :: x in bucketOf <==> x in log)
    && buckets[0] == Bucket(log, bucketOf, 0) && buckets[1] == Bucket(log, bucketOf, 1)
    && buckets[2] == Bucket(log, bucketOf, 2) && buckets[3] == Bucket(log, bucketOf, 3)
  }

  /** Where no operand belongs to a later kind, every entry is filed by its
      kind. */
  predicate ByKind(g: Graph, bucketOf: map<Id, nat>) {
    KindMonotone(g) ==> forall x :: x in bucketOf && x in g ==> bucketOf[x] == KindBucket(g[x])
  }

  predicate ForwardPointersOk(g: Graph, forward: set<Id>) {
    forall x :: x in forward ==> x in g && IsPointer(g[x])
  }

  lemma MarksUpdate(state: map<Id, DFSState>, log: seq<Id>, path: set<Id>, id: Id, s: DFSState,
                    log': seq<Id>, path': set<Id>)
    requires Marks(state, log, path)
    requires forall x :: x != id ==> (x in log' <==> x in log) && (x in path' <==> x in path)
    requires (s == Visited <==> id in log') && (s == Discovered <==> id in path')
    ensures Marks(state[id := s], log', path')
  {
    forall x
      ensures (StateOf(state[id := s], x) == Visited <==> x in log')
      ensures (StateOf(state[id := s], x) == Discovered <==> x in path')
    {
      if x != id {
        assert StateOf(state[id := s], x) == StateOf(state, x);
      }
    }
  }

  lemma MarksInitial(roots: set<Id>)
    ensures Marks(map r | r in roots :: Unvisited, [], {})
  {
    var state := map r | r in roots :: Unvisited;
    forall x
      ensures StateOf(state, x) == Unvisited
    {
    }
  }

  /** Filing an entry not yet emitted changes no bucket. */
  lemma {:induction false} BucketUnchanged(log: seq<Id>, bucketOf: map<Id, nat>, id: Id, b: nat, c: nat)
    requires id !in log
    ensures Bucket(log, bucketOf[id := b], c) == Bucket(log, bucketOf, c)
    decreases |log|
  {
    if log != [] {
      BucketUnchanged(log[..|log| - 1], bucketOf, id, b, c);
    }
  }

  /** Filing a new entry into bucket `b`. */
  lemma FiledAppend(buckets: seq<seq<Id>>, log: seq<Id>, bucketOf: map<Id, nat>, id: Id, b: nat)
    requires Filed(buckets, log, bucketOf) && id !in log && b < 4
    ensures Filed(buckets[b := buckets[b] + [id]], log + [id], bucketOf[id := b])
  {
    var bm := bucketOf[id := b];
    BucketUnchanged(log, bucketOf, id, b, 0);
    BucketUnchanged(log, bucketOf, id, b, 1);
    BucketUnchanged(log, bucketOf, id, b, 2);
    BucketUnchanged(log, bucketOf, id, b, 3);
    BucketAppend(log, bm, id, 0);
    BucketAppend(log, bm, id, 1);
    BucketAppend(log, bm, id, 2);
    BucketAppend(log, bm, id, 3);
  }

  /** Filing an entry not yet emitted keeps what is known of the others. */
  lemma {:induction false} EmittedRefile(g: Graph, log: seq<Id>, bucketOf: map<Id, nat>, forward: set<Id>, id: Id, b: nat)
    requires Emitted(g, log, bucketOf, forward) && id !in log
    ensures Emitted(g, log, bucketOf[id := b], forward)
    decreases |log|
  {
    if log != [] {
      var init := log[..|log| - 1];
      assert log == init + [log[|log| - 1]];
      EmittedRefile(g, init, bucketOf, forward, id, b);
    }
  }

  /** Emitting an entry whose operands are all emitted, into a bucket no
      earlier than theirs, or forward declared. */
  lemma EmittedAppend(g: Graph, log: seq<Id>, bucketOf: map<Id, nat>, forward: set<Id>, id: Id, b: nat)
    requires Emitted(g, log, bucketOf, forward) && Distinct(log)
    requires id in g && id !in log && b < 4
    requires forall o :: o in g[id].operands ==> o in forward || (o in log && o in bucketOf && bucketOf[o] <= b)
    ensures Emitted(g, log + [id], bucketOf[id := b], forward) && Distinct(log + [id])
  {
    EmittedRefile(g, log, bucketOf, forward, id, b);
    assert (log + [id])[..|log|] == log;
  }

  lemma {:induction false} EmittedForward(g: Graph, log: seq<Id>, bucketOf: map<Id, nat>, forward: set<Id>, id: Id)
    requires Emitted(g, log, bucketOf, forward)
    ensures Emitted(g, log, bucketOf, forward + {id})
    decreases |log|
  {
    if log != [] {
      EmittedForward(g, log[..|log| - 1], bucketOf, forward, id);
    }
  }

  lemma ByKindUpdate(g: Graph, bucketOf: map<Id, nat>, id: Id, b: nat)
    requires ByKind(g, bucketOf) && id in g && (KindMonotone(g) ==> b == KindBucket(g[id]))
    ensures ByKind(g, bucketOf[id := b])
  {
  }

  /** With every entry filed by kind, the entry's kind bucket is already no
      earlier than its operands' buckets. */
  lemma KindBucketSuffices(g: Graph, bucketOf: map<Id, nat>, id: Id)
    requires Closed(g) && id in g && ByKind(g, bucketOf)
    ensures KindMonotone(g) ==> SpirvModule.Max(KindBucket(g[id]), MaxBucketOf(g[id].operands, bucketOf)) == KindBucket(g[id])
  {
    var ops := g[id].operands;
    if KindMonotone(g) && MaxBucketOf(ops, bucketOf) != 0 {
      var o :| o in ops && o in bucketOf && bucketOf[o] == MaxBucketOf(ops, bucketOf);
      assert o in g;
    }
  }

  /** The first `i` operands are emitted or forward declared. */
  predicate Handled(ops: seq<Id>, i: nat, log: seq<Id>, forward: set<Id>) {
    forall j :: 0 <= j < i <= |ops| ==> ops[j] in log || ops[j] in forward
  }

  lemma HandledStep(ops: seq<Id>, i: nat, log0: seq<Id>, log: seq<Id>, forward0: set<Id>, forward: set<Id>)
    requires i < |ops| && Handled(ops, i, log0, forward0)
    requires log0 <= log && forward0 <= forward
    requires ops[i] in log || ops[i] in forward
    ensures Handled(ops, i + 1, log, forward)
  {
    forall j | 0 <= j < i
      ensures ops[j] in log || ops[j] in forward
    {
      if ops[j] in log0 {
        var k :| 0 <= k < |log0| && log0[k] == ops[j];
        assert log[k] == ops[j];
      }
    }
  }

  /** The ids of `keys` above `last`. */
  function Above(keys: set<Id>, last: int): (r: set<Id>)
    ensures forall k :: k in r <==> k in keys && k > last
  {
    set k | k in keys && k > last
  }

  lemma AboveShrinks(keys: set<Id>, last: int, next: Id)
    requires next in keys && next > last
    ensures |Above(keys, next)| < |Above(keys, last)|
  {
    var big, small := Above(keys, last), Above(keys, next);
    assert big == small + (big - small) && next in big - small;
  }

  /** The roots up to `last` were emitted or forward declared. */
  predicate RootsDone(roots: set<Id>, last: int, log: seq<Id>, forward: set<Id>) {
    forall r :: r in roots && r <= last ==> r in log || r in forward
  }

  /** Visiting the least key above `last` completes the roots up to it. */
  lemma RootsStep(roots: set<Id>, keys: set<Id>, last: int, next: Id,
                  log0: seq<Id>, log: seq<Id>, forward0: set<Id>, forward: set<Id>)
    requires RootsDone(roots, last, log0, forward0) && roots <= keys
    requires next in keys && next > last && forall k :: k in keys && k > last ==> next <= k
    requires log0 <= log && forward0 <= forward && (next in log || next in forward)
    ensures RootsDone(roots, next, log, forward)
  {
    forall r | r in roots && r <= next
      ensures r in log || r in forward
    {
      if r <= last && r in log0 {
        var k :| 0 <= k < |log0| && log0[k] == r;
        assert log[k] == r;
      }
    }
  }

  lemma RootsAllDone(roots: set<Id>, keys: set<Id>, last: int, log: seq<Id>, forward: set<Id>)
    requires RootsDone(roots, last, log, forward) && roots <= keys && Above(keys, last) == {}
    ensures forall r :: r in roots ==> r in log || r in forward
  {
    forall r | r in roots
      ensures r in log || r in forward
    {
      assert r !in Above(keys, last);
    }
  }

  /** Strictly increasing, and bounded by `last`. */
  predicate IncreasingUpTo(s: seq<Id>, last: int) {
    && (forall i, j :: 0 <= i < j < |s| ==> s[i] < s[j])
    && (forall i :: 0 <= i < |s| ==> s[i] <= last)
  }

  lemma IncreasingStep(s: seq<Id>, last: int, next: Id)
    requires IncreasingUpTo(s, last) && last < next
    ensures IncreasingUpTo(s + [next], next)
  {
  }

  /** Every id on `path` is above `id`. */
  predicate AllAbove(path: set<Id>, id: Id) {
    forall x :: x in path ==> x > id
  }

  lemma AllAboveStep(path: set<Id>, id: Id, o: Id)
    requires AllAbove(path, id) && o < id
    ensures AllAbove(path + {id}, o)
  {
  }

  lemma PrefixTrans(a: seq<Id>, b: seq<Id>, c: seq<Id>)
    requires a <= b && b <= c
    ensures a <= c
  {
  }

  lemma DiscoveringShrinks(keys: set<Id>, d: set<Id>, id: Id)
    requires id in keys && id !in d
    ensures |keys - (d + {id})| < |keys - d|
  {
    assert keys - d == (keys - (d + {id})) + {id};
  }

  /** The state of the search: the marks of `EntryStateMap`, the four bucket
      vectors, the bucket each emitted entry went to, the forward-declared
      pointers, and the model's record of the emission order and of the
      entries on the current search path. */
  datatype Search = Search(state: map<Id, DFSState>, buckets: seq<seq<Id>>, bucketOf: map<Id, nat>,
                           forward: set<Id>, log: seq<Id>, path: set<Id>)

  /** What holds of the search between steps. */
  ghost predicate SearchInvariant(g: Graph, s: Search) {
    && Closed(g)
    && s.state.Keys <= g.Keys
    && Marks(s.state, s.log, s.path)
    && Distinct(s.log)
    && Filed(s.buckets, s.log, s.bucketOf)
    && Emitted(g, s.log, s.bucketOf, s.forward)
    && ByKind(g, s.bucketOf)
    && ForwardPointersOk(g, s.forward)
  }

  /** The search only ever learns: marked entries stay in the map, emitted
      entries stay emitted, forward declarations stay. */
  predicate Grows(s: Search, s': Search) {
    s.state.Keys <= s'.state.Keys && s.log <= s'.log && s.forward <= s'.forward
  }

  lemma GrowsTrans(a: Search, b: Search, c: Search)
    requires Grows(a, b) && Grows(b, c)
    ensures Grows(a, c)
  {
    PrefixTrans(a.log, b.log, c.log);
  }

  /** The search before any entry is visited. */
  function InitialSearch(roots: set<Id>): (s: Search)
    ensures forall g :: Closed(g) && roots <= g.Keys ==> SearchInvariant(g, s)
    ensures s.path == {} && s.state.Keys == roots
  {
    MarksInitial(roots);
    var s := Search(map r | r in roots :: Unvisited, [[], [], [], []], map[], {}, [], {});
    assert Filed(s.buckets, s.log, s.bucketOf);
    s
  }

  /** `State = Discovered`. */
  function Discover(g: Graph, s: Search, id: Id): (s': Search)
    requires SearchInvariant(g, s) && id in g && StateOf(s.state, id) == Unvisited
    ensures SearchInvariant(g, s') && Grows(s, s')
    ensures s'.path == s.path + {id} && StateOf(s'.state, id) == Discovered
  {
    MarksUpdate(s.state, s.log, s.path, id, Discovered, s.log, s.path + {id});
    s.(state := s.state[id := Discovered], path := s.path + {id})
  }

  /** A cycle closed through `id`: it is forgotten (`State = Unvisited`),
      and if it is a pointer its forward declaration breaks the cycle. */
  function Retreat(g: Graph, s: Search, id: Id, restore: set<Id>): (s': Search)
    requires SearchInvariant(g, s) && id in g && StateOf(s.state, id) == Discovered
    requires s.path == restore + {id} && id !in restore
    ensures SearchInvariant(g, s') && Grows(s, s')
    ensures s'.path == restore && StateOf(s'.state, id) == Unvisited
    ensures s'.forward == if IsPointer(g[id]) then s.forward + {id} else s.forward
  {
    assert restore == s.path - {id};
    MarksUpdate(s.state, s.log, s.path, id, Unvisited, s.log, restore);
    var f := s.(state := s.state[id := Unvisited], path := restore);
    if IsPointer(g[id]) then
      EmittedForward(g, f.log, f.bucketOf, f.forward, id);
      f.(forward := f.forward + {id})
    else f
  }

  /** Every operand of `id` is emitted into a bucket no later than `b`, or
      forward declared. */
  lemma HandledBelow(g: Graph, s: Search, id: Id, b: nat)
    requires SearchInvariant(g, s) && id in g
    requires Handled(g[id].operands, |g[id].operands|, s.log, s.forward)
    requires b >= MaxBucketOf(g[id].operands, s.bucketOf)
    ensures forall o :: o in g[id].operands ==> o in s.forward || (o in s.log && o in s.bucketOf && s.bucketOf[o] <= b)
  {
    var ops := g[id].operands;
    forall o | o in ops
      ensures o in s.forward || (o in s.log && o in s.bucketOf && s.bucketOf[o] <= b)
    {
      var j :| 0 <= j < |ops| && ops[j] == o;
    }
  }

  /** No operand's bucket is past the last one. */
  lemma MaxBucketBelowFour(g: Graph, s: Search, ops: seq<Id>)
    requires SearchInvariant(g, s)
    ensures MaxBucketOf(ops, s.bucketOf) < 4
  {
    EmittedInGraph(g, s.log, s.bucketOf, s.forward);
    if MaxBucketOf(ops, s.bucketOf) != 0 {
      var o :| o in ops && o in s.bucketOf && s.bucketOf[o] == MaxBucketOf(ops, s.bucketOf);
      assert o in s.log;
    }
  }

  /** The push of `id` into bucket `b` keeps the invariant. */
  lemma PlaceKeepsInvariant(g: Graph, s: Search, id: Id, restore: set<Id>, b: nat)
    requires SearchInvariant(g, s) && id in g && StateOf(s.state, id) == Discovered
    requires s.path == restore + {id} && id !in restore
    requires Handled(g[id].operands, |g[id].operands|, s.log, s.forward)
    requires b == SpirvModule.Max(KindBucket(g[id]), MaxBucketOf(g[id].operands, s.bucketOf)) && b < 4
    ensures SearchInvariant(g, s.(state := s.state[id := Visited], path := restore,
                                  buckets := s.buckets[b := s.buckets[b] + [id]],
                                  bucketOf := s.bucketOf[id := b], log := s.log + [id]))
  {
    KindBucketSuffices(g, s.bucketOf, id);
    MaxBucketBelowFour(g, s, g[id].operands);
    HandledBelow(g, s, id, b);
    assert restore == s.path - {id};
    MarksUpdate(s.state, s.log, s.path, id, Visited, s.log + [id], restore);
    FiledAppend(s.buckets, s.log, s.bucketOf, id, b);
    EmittedAppend(g, s.log, s.bucketOf, s.forward, id, b);
    ByKindUpdate(g, s.bucketOf, id, b);
  }

  /** The bucket pushes: the entry, whose operands are all handled, goes to
      the bucket of its kind or, if later, the latest bucket among its
      operands' (`State = Visited`). */
  function Place(g: Graph, s: Search, id: Id, restore: set<Id>): (s': Search)
    requires SearchInvariant(g, s) && id in g && StateOf(s.state, id) == Discovered
    requires s.path == restore + {id} && id !in restore
    requires Handled(g[id].operands, |g[id].operands|, s.log, s.forward)
    ensures SearchInvariant(g, s') && Grows(s, s')
    ensures s'.path == restore && s'.log == s.log + [id] && s'.forward == s.forward
    ensures id in s'.bucketOf && KindBucket(g[id]) <= s'.bucketOf[id]
    ensures forall o :: o in g[id].operands && o in s.bucketOf ==> s.bucketOf[o] <= s'.bucketOf[id]
  {
    var b := SpirvModule.Max(KindBucket(g[id]), MaxBucketOf(g[id].operands, s.bucketOf));
    MaxBucketBelowFour(g, s, g[id].operands);
    PlaceKeepsInvariant(g, s, id, restore, b);
    s.(state := s.state[id := Visited], path := restore, buckets := s.buckets[b := s.buckets[b] + [id]],
       bucketOf := s.bucketOf[id := b], log := s.log + [id])
  }

  /** `visit`: an entry already emitted is done; one on the current path
      closes a cycle. Otherwise its operands are visited first and it is
      placed after them. A cycle that returns to a pointer type is broken by
      forward declaring that pointer, which is then left unemitted. */
  method Visit(g: Graph, s: Search, id: Id) returns (s': Search, cycle: bool)
    requires SearchInvariant(g, s) && id in g
    ensures SearchInvariant(g, s') && Grows(s, s') && s'.path == s.path
    ensures !cycle ==> id in s'.log || id in s'.forward
    ensures OperandsBelow(g) && AllAbove(s.path, id) ==> !cycle && id in s'.log
    decreases |g.Keys - s.path|, 0
  {
    var mark := StateOf(s.state, id);
    if mark == Visited {
      return s, false;
    }
    if mark == Discovered {
      return s, true;
    }
    var d := Discover(g, s, id);
    DiscoveringShrinks(g.Keys, s.path, id);
    var v, c := VisitOperands(g, d, id, s.path);
    GrowsTrans(s, d, v);
    if c {
      s' := Retreat(g, v, id, s.path);
      cycle := !IsPointer(g[id]);
    } else {
      s' := Place(g, v, id, s.path);
      cycle := false;
    }
    GrowsTrans(s, v, s');
  }

  /** The operands of the discovered entry `id`, visited in order until one
      closes a cycle. */
  method VisitOperands(g: Graph, s: Search, id: Id, path0: set<Id>) returns (s': Search, cycle: bool)
    requires SearchInvariant(g, s) && id in g && StateOf(s.state, id) == Discovered
    requires s.path == path0 + {id} && id !in path0
    ensures SearchInvariant(g, s') && Grows(s, s') && s'.path == s.path
    ensures StateOf(s'.state, id) == Discovered
    ensures !cycle ==> Handled(g[id].operands, |g[id].operands|, s'.log, s'.forward)
    ensures OperandsBelow(g) && AllAbove(path0, id)
            ==> !cycle && Handled(g[id].operands, |g[id].operands|, s'.log, {})
    decreases |g.Keys - s.path|, 1
  {
    var ops := g[id].operands;
    ghost var below := OperandsBelow(g) && AllAbove(path0, id);
    s' := s;
    var i := 0;
    while i < |ops|
      invariant 0 <= i <= |ops|
      invariant SearchInvariant(g, s') && Grows(s, s') && s'.path == s.path
      invariant Handled(ops, i, s'.log, s'.forward)
      invariant below ==> Handled(ops, i, s'.log, {})
    {
      var o := ops[i];
      var t := s';
      if StateOf(t.state, o) != Visited {
        if below {
          assert o in g[id].operands;
          AllAboveStep(path0, id, o);
        }
        var c;
        s', c := Visit(g, t, o);
        GrowsTrans(s, t, s');
        if c {
          assert StateOf(s'.state, id) == Discovered;
          return s', true;
        }
      }
      HandledStep(ops, i, t.log, s'.log, t.forward, s'.forward);
      if below {
        HandledStep(ops, i, t.log, s'.log, {}, {});
      }
      i := i + 1;
    }
    assert StateOf(s'.state, id) == Discovered;
    return s', false;
  }

  /** The bucket vectors written one after the other. */
  function Written(s: Search): seq<Id>
    requires |s.buckets| == 4
  {
    s.buckets[0] + s.buckets[1] + s.buckets[2] + s.buckets[3]
  }

  /** What the finished search guarantees of the written order. */
  lemma WrittenOrder(g: Graph, s: Search)
    requires SearchInvariant(g, s)
    ensures DeclaredBeforeUse(g, s.forward, Written(s)) && NoDuplicates(Written(s))
    ensures forall x :: x in s.log <==> x in Written(s)
    ensures KindMonotone(g) ==> Written(s) == AsWrittenOutput(g, s.log)
  {
    DistinctHasNoDuplicates(s.log);
    OutputDeclaredBeforeUse(g, s.log, s.bucketOf, s.forward);
    OutputMembers(s.log, s.bucketOf);
    EmittedInGraph(g, s.log, s.bucketOf, s.forward);
    assert Written(s) == OutputOf(s.log, s.bucketOf);
    if KindMonotone(g) {
      OutputMatchesKinds(g, s.log, s.bucketOf);
    }
  }

  class TopologicalSort {
    const graph: Graph
    var state: map<Id, DFSState>
    /** TypeIntVec, ConstIntVec, TypeVec and ConstAndVarVec. */
    var buckets: seq<seq<Id>>
    /** The pointers declared by `OpTypeForwardPointer`, one per pointer id. */
    var forwardPointers: set<Id>
    /** False when a cycle not through a pointer was found. */
    var ok: bool
    /** The bucket of each emitted entry. */
    ghost var bucketOf: map<Id, nat>
    /** The entries in the order they were emitted. */
    ghost var log: seq<Id>
    /** The entries the outer loop visited, in order. */
    ghost var rootOrder: seq<Id>

    ghost predicate Valid()
      reads this
    {
      SearchInvariant(graph, Search(state, buckets, bucketOf, forwardPointers, log, {}))
    }

    /** The output the module writes. */
    function Output(): seq<Id>
      reads this
      requires |buckets| == 4
    {
      buckets[0] + buckets[1] + buckets[2] + buckets[3]
    }

    /** The sort of the types, constants and variables `roots`; see
        `SortRoots`. */
    constructor (graph: Graph, roots: set<Id>)
      requires Closed(graph) && roots <= graph.Keys
      ensures this.graph == graph && Valid()
      ensures DeclaredBeforeUse(graph, forwardPointers, Output()) && NoDuplicates(Output())
      ensures forall x :: x in forwardPointers ==> x in graph && IsPointer(graph[x])
      ensures ok ==> forall r :: r in roots ==> r in log || r in forwardPointers
      ensures OperandsBelow(graph) ==> ok && forall r :: r in roots ==> r in log
      ensures forall x :: x in log <==> x in Output()
      ensures KindMonotone(graph) ==> Output() == AsWrittenOutput(graph, log)
      ensures forall i, j :: 0 <= i < j < |rootOrder| ==> rootOrder[i] < rootOrder[j]
    {
      var s, fine, order := SortRoots(graph, roots);
      WrittenOrder(graph, s);
      this.graph := graph;
      state := s.state;
      buckets := s.buckets;
      forwardPointers := s.forward;
      ok := fine;
      bucketOf := s.bucketOf;
      log := s.log;
      rootOrder := order;
      new;
      assert s == Search(state, buckets, bucketOf, forwardPointers, log, {});
    }
  }

  /** The loop of the `TopologicalSort` constructor: it walks the state map
      in ascending id order, including entries the search adds to it, and
      visits each; a cycle not through a pointer stops it with `ok` false.
      `order` records the entries it visited. */
  method SortRoots(g: Graph, roots: set<Id>) returns (s: Search, ok: bool, ghost order: seq<Id>)
    requires Closed(g) && roots <= g.Keys
    ensures SearchInvariant(g, s) && s.path == {}
    ensures ok ==> forall r :: r in roots ==> r in s.log || r in s.forward
    ensures OperandsBelow(g) ==> ok && forall r :: r in roots ==> r in s.log
    ensures forall i, j :: 0 <= i < j < |order| ==> order[i] < order[j]
  {
    s := InitialSearch(roots);
    ok := true;
    order := [];
    var last: int := -1;
    while true
      invariant SearchInvariant(g, s) && s.path == {} && ok
      invariant roots <= s.state.Keys
      invariant IncreasingUpTo(order, last)
      invariant RootsDone(roots, last, s.log, s.forward)
      invariant OperandsBelow(g) ==> RootsDone(roots, last, s.log, {})
      decreases |Above(g.Keys, last)|
    {
      var rest := Above(s.state.Keys, last);
      if rest == {} {
        RootsAllDone(roots, s.state.Keys, last, s.log, s.forward);
        if OperandsBelow(g) {
          RootsAllDone(roots, s.state.Keys, last, s.log, {});
        }
        return;
      }
      var next := Least(rest);
      IncreasingStep(order, last, next);
      order := order + [next];
      var s', c := Visit(g, s, next);
      if c {
        return s', false, order;
      }
      RootsStep(roots, s.state.Keys, last, next, s.log, s'.log, s.forward, s'.forward);
      if OperandsBelow(g) {
        RootsStep(roots, s.state.Keys, last, next, s.log, s'.log, {}, {});
      }
      AboveShrinks(g.Keys, last, next);
      s, last := s', next;
    }
  }

  /** The least element of a non-empty set of ids. */
  method Least(s: set<Id>) returns (m: Id)
    requires s != {}
    ensures m in s && forall k :: k in s ==> m <= k
  {
    m :| m in s;
    var rest := s - {m};
    while rest != {}
      invariant m in s && rest <= s
      invariant forall k :: k in s - rest ==> m <= k
      decreases |rest|
    {
      var k :| k in rest;
      if k < m {
        m := k;
      }
      assert s - (rest - {k}) == (s - rest) + {k};
      rest := rest - {k};
    }
    assert s - rest == s;
  }
}
