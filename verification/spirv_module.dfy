/** The translator's in-memory SPIR-V module (`SPIRVModuleImpl`): the id
    table, the per-section vectors that fix the logical layout, the
    capability and extension sets with their closure under implication, the
    interning tables for scalar and pointer types, literals and strings,
    entry points (plain and conditional), decorations, names, long
    composites, erasure, and the header and instruction loop of the binary
    reader.

    Entities are values here: an `Entry` is what the module stores about an
    instruction (its opcode, result id and operand words). The tables the
    entity classes supply — which capabilities and extension an entry
    requires, what a capability implies, which extension a capability needs,
    which capabilities an execution model needs — and the set of extensions
    the translator options allow are constant parameters of a module. */
module SpirvModule {
  import opened Wrappers
  import opened OpCodes
  import opened BinaryFormat
  import opened Sequences

  type Id = nat
  type Cap = nat
  type ExecModel = nat
  type StorageClass = nat

  /** The reserved "no id" value. */
  const InvalidId: Id := 0xFFFF_FFFF

  /** An id a caller may request explicitly; 0 and the invalid id ask for a
      fresh one. */
  predicate IsValidId(id: Id) {
    id != 0 && id != InvalidId
  }

  const CapabilityKernel: Cap := 6
  /** The generator id registered for this translator. */
  const GeneratorKhronosTranslator: Half := 6
  const LongCompositesExtension := "SPV_INTEL_long_composites"
  const AtomicFloat16AddExtension := "SPV_EXT_shader_atomic_float16_add"
  const AtomicFloatAddExtension := "SPV_EXT_shader_atomic_float_add"
  /** The fixed words of a composite constant: opcode word, result type and
      result id. */
  const CompositeFixedWordCount := 3
  /** The most elements one composite instruction can carry. */
  const MaxCompositeElements := MaxWordCount - CompositeFixedWordCount

  function Max(a: nat, b: nat): nat {
    if a < b then b else a
  }

  // -----------------------------------------------------------------------
  // Entries and the logical layout

  datatype MemberName = MemberName(structId: Id, member: nat, name: string)

  /** What the module stores about an instruction. */
  datatype Entry =
    | /** An instruction with a result id; `hasParent` tells a function-local
          variable from a module-scope one. */
      Entity(opCode: OpCode, id: Id, operands: seq<nat>, hasParent: bool)
    | /** OpTypeForwardPointer: declares a pointer id that is defined later. */
      ForwardPointer(pointerId: Id, storageClass: StorageClass)
    | MemberNameEntry(memberName: MemberName)
    | /** Any other instruction without a result id (decorations, entry
          points, continued composites, ...). */
      Annotation(opCode: OpCode, operands: seq<nat>)

  function OpCodeOf(e: Entry): OpCode {
    match e
    case Entity(op, _, _, _) => op
    case ForwardPointer(_, _) => OpTypeForwardPointer
    case MemberNameEntry(_) => OpMemberName
    case Annotation(op, _) => op
  }

  /** The vectors of the module that fix where an instruction is written. */
  datatype Section =
    | StringSection | VariableSection | AsmTargetSection | AliasSection
    | AsmSection | TypeSection | ConstantSection | NoSection

  /** Where the layout puts an instruction with result id. Debug and
      auxiliary-data extended instructions have vectors of their own that are
      not part of this model. */
  function SectionOf(op: OpCode, hasParent: bool): Section {
    if op == OpString then StringSection
    else if op == OpVariable || op == OpUntypedVariableKHR then
      (if hasParent then NoSection else VariableSection)
    else if op == OpMemberName || op == OpExtInst then NoSection
    else if op == OpAsmTargetINTEL then AsmTargetSection
    else if op == OpAliasDomainDeclINTEL || op == OpAliasScopeDeclINTEL
         || op == OpAliasScopeListDeclINTEL then AliasSection
    else if op == OpAsmINTEL then AsmSection
    else if IsTypeOpCode(op) then TypeSection
    else if IsConstantOpCode(op) then ConstantSection
    else NoSection
  }

  /** The section vectors of a module, in the order they are written. */
  datatype SectionVectors = SectionVectors(
    strings: seq<Id>, memberNames: seq<MemberName>, variables: seq<Id>, asmTargets: seq<Id>,
    aliases: seq<Id>, asms: seq<Id>, types: seq<Id>, constants: seq<Id>)

  const NoSections := SectionVectors([], [], [], [], [], [], [], [])

  /** `layoutEntry`: the section vector an entry belongs to gets its id. */
  function Layout(v: SectionVectors, e: Entry): SectionVectors {
    match e
    case MemberNameEntry(m) => v.(memberNames := v.memberNames + [m])
    case Entity(op, id, _, hasParent) =>
      (match SectionOf(op, hasParent)
       case StringSection => v.(strings := v.strings + [id])
       case VariableSection => v.(variables := v.variables + [id])
       case AsmTargetSection => v.(asmTargets := v.asmTargets + [id])
       case AliasSection => v.(aliases := v.aliases + [id])
       case AsmSection => v.(asms := v.asms + [id])
       case TypeSection => v.(types := v.types + [id])
       case ConstantSection => v.(constants := v.constants + [id])
       case NoSection => v)
    case _ => v
  }

  function TotalLength(v: SectionVectors): nat {
    |v.strings| + |v.memberNames| + |v.variables| + |v.asmTargets| + |v.aliases| + |v.asms|
    + |v.types| + |v.constants|
  }

  /** The layout appends an entry to at most one vector, and to exactly one
      when it is a member name or a module-scope string, variable, inline
      assembly, alias declaration, type or constant; types go to the type
      vector and constants to the constant vector. */
  lemma LayoutPlacesOnce(v: SectionVectors, e: Entry)
    ensures var w := Layout(v, e);
            TotalLength(w) == TotalLength(v)
              + (if e.MemberNameEntry? || (e.Entity? && SectionOf(e.opCode, e.hasParent) != NoSection) then 1 else 0)
    ensures e.Entity? && IsTypeOpCode(e.opCode)
            ==> Layout(v, e).types == v.types + [e.id] && Layout(v, e).constants == v.constants
    ensures e.Entity? && IsConstantOpCode(e.opCode)
            ==> Layout(v, e).constants == v.constants + [e.id] && Layout(v, e).types == v.types
    ensures e.Entity? && (e.opCode == OpVariable || e.opCode == OpUntypedVariableKHR)
            ==> Layout(v, e).variables == v.variables + (if e.hasParent then [] else [e.id])
  {
  }

  /** An entry the module can hold: an instruction without result id is not
      one the layout sorts by opcode. */
  predicate WellFormed(e: Entry) {
    match e
    case Entity(op, id, _, _) => op != OpTypeForwardPointer && op != OpMemberName && id != InvalidId
    case Annotation(op, _) =>
      SectionOf(op, false) == NoSection && op != OpTypeForwardPointer && op != OpMemberName
    case _ => true
  }

  datatype Decoration = Decoration(target: Id, kind: nat, owner: Option<Id>)
  datatype DecorationGroup = DecorationGroup(id: Id, decorations: seq<Decoration>)
  datatype EntryPoint = EntryPoint(model: ExecModel, target: Id, name: string, interface: seq<Id>)
  datatype ConditionalEntryPoint = ConditionalEntryPoint(condition: Id, entryPoint: EntryPoint)
  datatype Line = Line(fileId: Id, line: Word, column: Word)

  function DecorationEntry(d: Decoration): Entry {
    Annotation(OpDecorate, [d.target, d.kind])
  }

  function EntryPointEntry(ep: EntryPoint): Entry {
    Annotation(OpEntryPoint, [ep.model, ep.target])
  }

  function ConditionalEntryPointEntry(c: ConditionalEntryPoint): Entry {
    Annotation(OpConditionalEntryPointINTEL, [c.condition, c.entryPoint.model, c.entryPoint.target])
  }

  function OptionSet<T>(o: Option<T>): set<T> {
    if o.Some? then {o.value} else {}
  }

  // -----------------------------------------------------------------------
  // Capability implication

  /** What each capability implicitly declares. The table is acyclic: a
      capability only implies capabilities with smaller enumerants. */
  type ImpliedTable = f: Cap -> seq<Cap> | forall c: Cap, d: Cap :: d in f(c) ==> d < c
    witness (c: Cap) => []

  /** One more than the largest capability in `cs`. */
  function Bound(cs: seq<Cap>): (b: nat)
    ensures forall d :: d in cs ==> d < b
  {
    if cs == [] then 0
    else
      assert cs == cs[..|cs| - 1] + [cs[|cs| - 1]];
      Max(Bound(cs[..|cs| - 1]), cs[|cs| - 1] + 1)
  }

  lemma {:induction false} BoundAtMost(cs: seq<Cap>, k: nat)
    requires forall d :: d in cs ==> d < k
    ensures Bound(cs) <= k
  {
    if cs != [] {
      var init := cs[..|cs| - 1];
      forall d | d in init
        ensures d < k
      {
        assert d in cs;
      }
      BoundAtMost(init, k);
      assert cs[|cs| - 1] in cs;
    }
  }

  /** The capabilities `addCapability(c)` declares: `c` and, first, all it
      implies. */
  function Closure(implied: ImpliedTable, c: Cap): set<Cap>
    decreases c, 1, 0
  {
    BoundAtMost(implied(c), c);
    {c} + ClosureAll(implied, implied(c))
  }

  /** The capabilities `addCapabilities(cs)` declares. */
  function ClosureAll(implied: ImpliedTable, cs: seq<Cap>): set<Cap>
    decreases Bound(cs), 0, |cs|
  {
    if cs == [] then {}
    else ClosureAll(implied, cs[..|cs| - 1]) + Closure(implied, cs[|cs| - 1])
  }

  /** One more capability of `cs` adds its closure. */
  lemma ClosureAllStep(implied: ImpliedTable, cs: seq<Cap>, i: nat)
    requires i < |cs|
    ensures ClosureAll(implied, cs[..i + 1]) == ClosureAll(implied, cs[..i]) + Closure(implied, cs[i])
  {
    assert cs[..i + 1][..i] == cs[..i];
  }

  lemma {:induction false} ClosureAllContains(implied: ImpliedTable, cs: seq<Cap>)
    ensures forall d :: d in cs ==> d in ClosureAll(implied, cs)
    decreases |cs|
  {
    if cs != [] {
      ClosureAllContains(implied, cs[..|cs| - 1]);
      assert cs == cs[..|cs| - 1] + [cs[|cs| - 1]];
    }
  }

  /** A declared capability brings everything it implies: the closure of any
      member of a closure lies inside it. */
  lemma {:induction false} ClosureTransitive(implied: ImpliedTable, c: Cap, d: Cap)
    requires d in Closure(implied, c)
    ensures Closure(implied, d) <= Closure(implied, c)
    decreases c, 1, 0
  {
    BoundAtMost(implied(c), c);
    if d != c {
      ClosureAllTransitive(implied, implied(c), d);
    }
  }

  lemma {:induction false} ClosureAllTransitive(implied: ImpliedTable, cs: seq<Cap>, d: Cap)
    requires d in ClosureAll(implied, cs)
    ensures Closure(implied, d) <= ClosureAll(implied, cs)
    decreases Bound(cs), 0, |cs|
  {
    var init := cs[..|cs| - 1];
    if d in ClosureAll(implied, init) {
      ClosureAllTransitive(implied, init, d);
    } else {
      ClosureTransitive(implied, cs[|cs| - 1], d);
    }
  }

  /** Every capability implied by a declared one is declared too. */
  lemma ClosureIsClosed(implied: ImpliedTable, c: Cap, d: Cap, e: Cap)
    requires d in Closure(implied, c) && e in implied(d)
    ensures c in Closure(implied, c) && e in Closure(implied, c)
  {
    ClosureTransitive(implied, c, d);
    ClosureAllContains(implied, implied(d));
  }

  /** The extension names `addExtension` inserts: the 16-bit float atomic-add
      extension extends, and brings, the 32/64-bit one. */
  function ExtensionEffect(ext: string): (r: set<string>)
    ensures ext in r
    ensures AtomicFloat16AddExtension in r ==> AtomicFloatAddExtension in r
    ensures r <= {ext, AtomicFloatAddExtension}
    ensures ext != AtomicFloat16AddExtension ==> r == {ext}
  {
    if ext == AtomicFloat16AddExtension then {ext, AtomicFloatAddExtension} else {ext}
  }

  /** The extension names declaring `caps` inserts: those of the required
      extensions that `allowed` contains. */
  function CapabilityExtensionsOf(capabilityExtension: Cap -> Option<string>, allowed: set<string>,
                                  caps: set<Cap>): set<string> {
    set c, x | c in caps && capabilityExtension(c).Some? && capabilityExtension(c).value in allowed
               && x in ExtensionEffect(capabilityExtension(c).value) :: x
  }

  /** Every extension `caps` requires is in `allowed`. */
  predicate CapabilityExtensionsAllowedBy(capabilityExtension: Cap -> Option<string>, allowed: set<string>,
                                          caps: set<Cap>) {
    forall c :: c in caps && capabilityExtension(c).Some? ==> capabilityExtension(c).value in allowed
  }

  // -----------------------------------------------------------------------
  // Interning tables

  /** Every key of the interning table `m` names an entity of the id table,
      mapped under its own id, that `describes` accepts for that key. */
  ghost predicate InternedIn<K(!new)>(table: map<Id, Entry>, m: map<K, Id>, describes: (K, Entry) -> bool) {
    forall k :: k in m ==>
      m[k] in table && table[m[k]].Entity? && table[m[k]].id == m[k] && describes(k, table[m[k]])
  }

  /** Mapping an id the table did not use keeps every interned key valid. */
  lemma InternedFresh<K(!new)>(table: map<Id, Entry>, m: map<K, Id>, describes: (K, Entry) -> bool,
                               id: Id, e: Entry)
    requires InternedIn(table, m, describes) && id !in table
    ensures InternedIn(table[id := e], m, describes)
  {
  }

  /** Interning a key under the id of an entry that matches it. */
  lemma InternedAdd<K(!new)>(table: map<Id, Entry>, m: map<K, Id>, describes: (K, Entry) -> bool, k: K, id: Id)
    requires InternedIn(table, m, describes) && id in table && table[id].Entity? && table[id].id == id
    requires describes(k, table[id])
    ensures InternedIn(table, m[k := id], describes)
  {
  }

  function IntTypeEntry(id: Id, width: nat): Entry {
    Entity(OpTypeInt, id, [width, 0], false)
  }

  function FloatTypeEntry(id: Id, desc: (nat, nat)): Entry {
    Entity(OpTypeFloat, id, [desc.0, desc.1], false)
  }

  function PointerTypeEntry(id: Id, desc: (StorageClass, Id)): Entry {
    Entity(OpTypePointer, id, [desc.0, desc.1], false)
  }

  function UntypedPointerTypeEntry(id: Id, storageClass: StorageClass): Entry {
    Entity(OpTypeUntypedPointerKHR, id, [storageClass], false)
  }

  function LiteralEntry(id: Id, intType: Id, literal: Word): Entry {
    Entity(OpConstant, id, [intType, literal], false)
  }

  /** A string literal's characters as operand words. */
  function StringOperands(s: string): (r: seq<nat>)
    ensures |r| == |s| && forall i :: 0 <= i < |s| ==> r[i] == s[i] as nat
  {
    seq(|s|, i requires 0 <= i < |s| => s[i] as nat)
  }

  /** Distinct strings have distinct operands, so the string table can key
      `OpString` entries by their text. */
  lemma StringOperandsInjective(s: string, t: string)
    requires StringOperands(s) == StringOperands(t)
    ensures s == t
  {
  }

  function StringEntry(id: Id, s: string): Entry {
    Entity(OpString, id, StringOperands(s), false)
  }

  predicate DescribesIntType(width: nat, e: Entry) {
    e.Entity? && e == IntTypeEntry(e.id, width)
  }

  predicate DescribesFloatType(desc: (nat, nat), e: Entry) {
    e.Entity? && e == FloatTypeEntry(e.id, desc)
  }

  predicate DescribesPointerType(desc: (StorageClass, Id), e: Entry) {
    e.Entity? && e == PointerTypeEntry(e.id, desc)
  }

  predicate DescribesUntypedPointerType(storageClass: StorageClass, e: Entry) {
    e.Entity? && e == UntypedPointerTypeEntry(e.id, storageClass)
  }

  /** A literal constant of a 32-bit integer type. */
  predicate DescribesLiteral(literal: Word, e: Entry) {
    e.Entity? && e.opCode == OpConstant && |e.operands| == 2 && e.operands[1] == literal
  }

  predicate DescribesString(s: string, e: Entry) {
    e.Entity? && e == StringEntry(e.id, s)
  }

  // -----------------------------------------------------------------------
  // Forward placeholders, entry points and decorations

  /** An `OpForward` placeholder for an id whose entity is not known yet. */
  function ForwardEntry(id: Id, ty: Id): Entry {
    Entity(OpForward, id, [ty], false)
  }

  /** The decorations with target `from` moved to target `to`, all else
      kept. */
  function Retarget(ds: seq<Decoration>, from: Id, to: Id): (r: seq<Decoration>)
    ensures |r| == |ds|
    ensures forall k :: 0 <= k < |ds| ==> r[k].kind == ds[k].kind && r[k].owner == ds[k].owner
    ensures forall k :: 0 <= k < |ds| && ds[k].target != from ==> r[k] == ds[k]
    ensures forall k :: 0 <= k < |ds| && ds[k].target == from ==> r[k].target == to
    ensures from != to ==> forall d :: d in r ==> d.target != from
  {
    if ds == [] then []
    else [if ds[0].target == from then ds[0].(target := to) else ds[0]] + Retarget(ds[1..], from, to)
  }

  /** `from` replaced by `to` wherever it occurs. */
  function Rename(ids: seq<Id>, from: Id, to: Id): (r: seq<Id>)
    ensures |r| == |ids|
    ensures forall k :: 0 <= k < |ids| ==> r[k] == if ids[k] == from then to else ids[k]
    ensures from != to ==> from !in r
    ensures to in r <==> to in ids || from in ids
    ensures forall x :: x != from && x != to ==> (x in r <==> x in ids)
  {
    seq(|ids|, k requires 0 <= k < |ids| => if ids[k] == from then to else ids[k])
  }

  /** Renaming to an id not in use is undone by renaming back: no other id
      is touched, so no information is lost. */
  lemma RenameUndone(ids: seq<Id>, from: Id, to: Id)
    requires to !in ids
    ensures Rename(Rename(ids, from, to), to, from) == ids
  {
  }

  /** The section vectors hold the entities themselves, so an entity whose id
      changes is found under its new id. */
  function RenameInSections(v: SectionVectors, from: Id, to: Id): SectionVectors {
    SectionVectors(Rename(v.strings, from, to), v.memberNames, Rename(v.variables, from, to),
                   Rename(v.asmTargets, from, to), Rename(v.aliases, from, to), Rename(v.asms, from, to),
                   Rename(v.types, from, to), Rename(v.constants, from, to))
  }

  /** The ids recorded for an execution model; none when it has no entry. */
  function Targets(m: map<ExecModel, set<Id>>, model: ExecModel): set<Id> {
    if model in m then m[model] else {}
  }

  /** `set[model].insert(target)` on a map of id sets. */
  function InsertTarget(m: map<ExecModel, set<Id>>, model: ExecModel, target: Id): (r: map<ExecModel, set<Id>>)
    ensures r.Keys == m.Keys + {model}
    ensures Targets(r, model) == Targets(m, model) + {target}
    ensures forall other :: other != model ==> Targets(r, other) == Targets(m, other)
  {
    m[model := Targets(m, model) + {target}]
  }

  /** Recording is a set insertion: recording a target twice is recording
      it once, and two recordings commute. */
  lemma InsertTargetSetLike(m: map<ExecModel, set<Id>>, model: ExecModel, target: Id,
                            model': ExecModel, target': Id)
    ensures InsertTarget(InsertTarget(m, model, target), model, target) == InsertTarget(m, model, target)
    ensures InsertTarget(InsertTarget(m, model, target), model', target')
            == InsertTarget(InsertTarget(m, model', target'), model, target)
  {
    var a := InsertTarget(InsertTarget(m, model, target), model', target');
    var b := InsertTarget(InsertTarget(m, model', target'), model, target);
    assert a.Keys == b.Keys;
    forall x | x in a
      ensures a[x] == b[x]
    {
      assert a[x] == Targets(a, x) && b[x] == Targets(b, x);
    }
  }

  /** The entry points of `eps` recorded in order. */
  function InsertTargets(m: map<ExecModel, set<Id>>, eps: seq<EntryPoint>): (r: map<ExecModel, set<Id>>)
  {
    if eps == [] then m
    else
      var last := eps[|eps| - 1];
      InsertTarget(InsertTargets(m, eps[..|eps| - 1]), last.model, last.target)
  }

  /** Recording entry points loses nothing and records exactly their
      targets, each under its own execution model. */
  lemma {:induction false} InsertTargetsRecords(m: map<ExecModel, set<Id>>, eps: seq<EntryPoint>, model: ExecModel)
    ensures Targets(InsertTargets(m, eps), model)
            == Targets(m, model) + set ep | ep in eps && ep.model == model :: ep.target
  {
    if eps != [] {
      var init := eps[..|eps| - 1];
      InsertTargetsRecords(m, init, model);
      assert eps == init + [eps[|eps| - 1]];
    }
  }

  /** Every id of `ids` erased from every set of the map. */
  function EraseTargets(m: map<ExecModel, set<Id>>, ids: set<Id>): (r: map<ExecModel, set<Id>>)
    ensures r.Keys == m.Keys
    ensures forall model :: model in m ==> r[model] == m[model] - ids
    ensures forall model :: model in r ==> r[model] !! ids && r[model] <= m[model]
  {
    map model | model in m :: m[model] - ids
  }

  function HasCondition(condition: Id): ConditionalEntryPoint -> bool {
    (c: ConditionalEntryPoint) => c.condition == condition
  }

  function HasOtherCondition(condition: Id): ConditionalEntryPoint -> bool {
    (c: ConditionalEntryPoint) => c.condition != condition
  }

  function EntryPointsOf(cs: seq<ConditionalEntryPoint>): (r: seq<EntryPoint>)
    ensures |r| == |cs| && forall k :: 0 <= k < |cs| ==> r[k] == cs[k].entryPoint
  {
    seq(|cs|, k requires 0 <= k < |cs| => cs[k].entryPoint)
  }

  function TargetIds(cs: seq<ConditionalEntryPoint>): (r: set<Id>)
    ensures forall id :: id in r <==> exists c :: c in cs && c.entryPoint.target == id
    ensures r == set ep | ep in EntryPointsOf(cs) :: ep.target
  {
    set c | c in cs :: c.entryPoint.target
  }

  /** Taking the entry points keeps the order of the conditional ones
      across a concatenation. */
  lemma EntryPointsOfAppend(cs: seq<ConditionalEntryPoint>, ds: seq<ConditionalEntryPoint>)
    ensures EntryPointsOf(cs + ds) == EntryPointsOf(cs) + EntryPointsOf(ds)
  {
  }

  /** `specializeConditionalEntryPoints` splits the conditional entry points
      by their condition: the two parts together are the original ones, none
      left has the condition, and all removed ones had it. */
  lemma SpecializeSplits(cs: seq<ConditionalEntryPoint>, condition: Id)
    ensures multiset(Filter(cs, HasCondition(condition))) + multiset(Filter(cs, HasOtherCondition(condition)))
            == multiset(cs)
    ensures forall c :: c in Filter(cs, HasOtherCondition(condition)) ==> c.condition != condition
    ensures forall c :: c in Filter(cs, HasCondition(condition)) ==> c.condition == condition
  {
    FilterPartition(cs, HasCondition(condition), HasOtherCondition(condition));
  }

  /** The targets erased and the targets kept by the split together are all
      the targets of the conditional entry points. */
  lemma TargetIdsSplit(cs: seq<ConditionalEntryPoint>, condition: Id)
    ensures TargetIds(cs)
            == TargetIds(Filter(cs, HasCondition(condition))) + TargetIds(Filter(cs, HasOtherCondition(condition)))
  {
  }

  // -----------------------------------------------------------------------
  // Erasure

  function NotNaming(id: Id): MemberName -> bool {
    (m: MemberName) => m.structId != id
  }

  function NotDecorating(id: Id): Decoration -> bool {
    (d: Decoration) => d.target != id
  }

  function NotEntering(id: Id): EntryPoint -> bool {
    (ep: EntryPoint) => ep.target != id
  }

  function IsNot(id: Id): Id -> bool {
    (x: Id) => x != id
  }

  /** The vector `eraseValue` removes a value with opcode `op` from, or
      `NoSection` when it refuses the value. Variables with or without a type
      are erased from the variable vector, as the layout puts both there. */
  function ErasableSection(op: OpCode): (r: Section)
    ensures r != NoSection ==> r == SectionOf(op, false)
  {
    if IsTypeOpCode(op) then TypeSection
    else if op == OpVariable || op == OpUntypedVariableKHR then VariableSection
    else if IsConstantOpCode(op) then ConstantSection
    else if op == OpAsmINTEL then AsmSection
    else if op == OpAsmTargetINTEL then AsmTargetSection
    else NoSection
  }

  /** `eraseValue` as written: `OpUntypedVariableKHR` is not among the
      opcodes it erases. */
  function ErasableSectionAsWritten(op: OpCode): (r: Section)
    ensures op != OpUntypedVariableKHR ==> r == ErasableSection(op)
  {
    if IsTypeOpCode(op) then TypeSection
    else if op == OpVariable then VariableSection
    else if IsConstantOpCode(op) then ConstantSection
    else if op == OpAsmINTEL then AsmSection
    else if op == OpAsmTargetINTEL then AsmTargetSection
    else NoSection
  }

  /** The vector `section` without the id. */
  function EraseFromSection(v: SectionVectors, section: Section, id: Id): (r: SectionVectors)
  {
    match section
    case TypeSection => v.(types := Filter(v.types, IsNot(id)))
    case VariableSection => v.(variables := Filter(v.variables, IsNot(id)))
    case ConstantSection => v.(constants := Filter(v.constants, IsNot(id)))
    case AsmSection => v.(asms := Filter(v.asms, IsNot(id)))
    case AsmTargetSection => v.(asmTargets := Filter(v.asmTargets, IsNot(id)))
    case _ => v
  }

  /** Every id vector of the layout. */
  function SectionIds(v: SectionVectors): seq<Id> {
    v.strings + v.variables + v.asmTargets + v.aliases + v.asms + v.types + v.constants
  }

  lemma {:induction false} FilterKeepsAll(s: seq<Id>, id: Id)
    requires id !in s
    ensures Filter(s, IsNot(id)) == s
  {
    if s != [] {
      FilterKeepsAll(s[1..], id);
      assert s == [s[0]] + s[1..];
    }
  }

  lemma FilterDropsLast(s: seq<Id>, id: Id)
    requires id !in s
    ensures Filter(s + [id], IsNot(id)) == s
  {
    FilterAppend(s, [id], IsNot(id));
    FilterKeepsAll(s, id);
    assert Filter([id], IsNot(id)) == [];
  }

  /** Erasing a value undoes its layout: a fresh entity that `eraseValue`
      accepts leaves the section vectors as they were before it was
      added. */
  lemma EraseValueUndoesLayout(v: SectionVectors, e: Entry)
    requires e.Entity? && e.id !in SectionIds(v)
    requires ErasableSection(e.opCode) != NoSection
    ensures EraseFromSection(Layout(v, e), ErasableSection(e.opCode), e.id) == v
  {
    var id := e.id;
    ErasableLaidOut(e.opCode, e.hasParent);
    var w := Layout(v, e);
    match ErasableSection(e.opCode)
    case TypeSection =>
      assert w == v.(types := v.types + [id]);
      FilterDropsLast(v.types, id);
    case VariableSection =>
      if e.hasParent {
        assert w == v;
        FilterKeepsAll(v.variables, id);
      } else {
        assert w == v.(variables := v.variables + [id]);
        FilterDropsLast(v.variables, id);
      }
    case ConstantSection =>
      assert w == v.(constants := v.constants + [id]);
      FilterDropsLast(v.constants, id);
    case AsmSection =>
      assert w == v.(asms := v.asms + [id]);
      FilterDropsLast(v.asms, id);
    case AsmTargetSection =>
      assert w == v.(asmTargets := v.asmTargets + [id]);
      FilterDropsLast(v.asmTargets, id);
  }

  /** An erasable value is laid out in the section it is erased from,
      unless it is a variable inside a function. */
  lemma ErasableLaidOut(op: OpCode, hasParent: bool)
    requires ErasableSection(op) != NoSection
    ensures SectionOf(op, hasParent)
            == if ErasableSection(op) == VariableSection && hasParent then NoSection else ErasableSection(op)
  {
  }

  /** As written, a module-scope untyped variable is laid out in the
      variable vector, yet `eraseValue` refuses it and leaves it there. */
  lemma UntypedVariableNotErased(v: SectionVectors, id: Id, operands: seq<nat>)
    ensures id in Layout(v, Entity(OpUntypedVariableKHR, id, operands, false)).variables
    ensures ErasableSectionAsWritten(OpUntypedVariableKHR) == NoSection
    ensures ErasableSection(OpUntypedVariableKHR) == VariableSection
  {
  }

  // -----------------------------------------------------------------------
  // Composite constants

  /** The operands of a (spec) constant composite: its type, then its
      elements. */
  function CompositeEntry(id: Id, ty: Id, elements: seq<Id>, spec: bool): Entry {
    Entity(if spec then OpSpecConstantComposite else OpConstantComposite, id, [ty] + elements, false)
  }

  function ContinuedEntry(slice: seq<Id>, spec: bool): Entry {
    Annotation(if spec then OpSpecConstantCompositeContinuedINTEL else OpConstantCompositeContinuedINTEL, slice)
  }

  /** The slices still to be cut from `start` on. */
  function RemainingChunks(elements: seq<Id>, start: nat): seq<seq<Id>>
    requires start <= |elements|
  {
    if start < |elements| then Chunks(elements[start..], MaxCompositeElements) else []
  }

  /** One turn of the slicing loop of `addCompositeConstant`. */
  lemma ChunksStep(elements: seq<Id>, continued: seq<seq<Id>>, start: nat, end: nat)
    requires MaxCompositeElements <= start < |elements|
    requires end == if |elements| - start > MaxCompositeElements then start + MaxCompositeElements else |elements|
    requires continued + RemainingChunks(elements, start) == RemainingChunks(elements, MaxCompositeElements)
    ensures (continued + [elements[start..end]]) + RemainingChunks(elements, end)
            == RemainingChunks(elements, MaxCompositeElements)
  {
    if end < |elements| {
      assert elements[start..][..MaxCompositeElements] == elements[start..end];
      assert elements[start..][MaxCompositeElements..] == elements[end..];
    } else {
      assert elements[start..] == elements[start..end];
    }
    assert RemainingChunks(elements, start) == [elements[start..end]] + RemainingChunks(elements, end);
    assert (continued + [elements[start..end]]) + RemainingChunks(elements, end)
           == continued + ([elements[start..end]] + RemainingChunks(elements, end));
  }

  /** The composite's elements in the order the head and its continued
      instructions carry them: nothing is lost or reordered, the head holds
      the first `MaxCompositeElements`, and every continued instruction holds
      at most that many, only the last fewer. */
  lemma CompositeSplit(elements: seq<Id>)
    requires |elements| > MaxCompositeElements
    ensures Flatten([elements[..MaxCompositeElements]] + Chunks(elements[MaxCompositeElements..], MaxCompositeElements))
            == elements
    ensures var continued := Chunks(elements[MaxCompositeElements..], MaxCompositeElements);
            && (forall k :: 0 <= k < |continued| ==> 0 < |continued[k]| <= MaxCompositeElements)
            && (forall k :: 0 <= k < |continued| - 1 ==> |continued[k]| == MaxCompositeElements)
  {
    var continued := Chunks(elements[MaxCompositeElements..], MaxCompositeElements);
    ChunksProperties(elements[MaxCompositeElements..], MaxCompositeElements);
    assert ([elements[..MaxCompositeElements]] + continued)[1..] == continued;
    assert elements[..MaxCompositeElements] + elements[MaxCompositeElements..] == elements;
  }

  /** The interning tables of a module: integer types by width, float
      types by width and encoding, pointer types by storage class and
      element type, untyped pointer types by storage class, 32-bit literal
      constants, strings, and the bool and void types. */
  datatype InternTables = InternTables(
    ints: map<nat, Id>, floats: map<(nat, nat), Id>, pointers: map<(StorageClass, Id), Id>,
    untypedPointers: map<StorageClass, Id>, literals: map<Word, Id>, strings: map<string, Id>,
    boolType: Option<Id>, voidType: Option<Id>)

  const NoInternTables := InternTables(map[], map[], map[], map[], map[], map[], None, None)

  function BoolTypeEntry(id: Id): Entry {
    Entity(OpTypeBool, id, [], false)
  }

  function VoidTypeEntry(id: Id): Entry {
    Entity(OpTypeVoid, id, [], false)
  }

  /** Every interning table and the cached bool and void types name entries
      of the id table that match their keys. */
  ghost predicate InternedBy(table: map<Id, Entry>, t: InternTables) {
    && InternedIn(table, t.ints, DescribesIntType)
    && InternedIn(table, t.floats, DescribesFloatType)
    && InternedIn(table, t.pointers, DescribesPointerType)
    && InternedIn(table, t.untypedPointers, DescribesUntypedPointerType)
    && InternedIn(table, t.literals, DescribesLiteral)
    && InternedIn(table, t.strings, DescribesString)
    && (t.boolType.Some? ==> t.boolType.value in table && table[t.boolType.value] == BoolTypeEntry(t.boolType.value))
    && (t.voidType.Some? ==> t.voidType.value in table && table[t.voidType.value] == VoidTypeEntry(t.voidType.value))
  }

  /** Mapping an id the table did not use keeps every interned key valid. */
  lemma InternedByFresh(table: map<Id, Entry>, t: InternTables, id: Id, e: Entry)
    requires InternedBy(table, t) && id !in table
    ensures InternedBy(table[id := e], t)
  {
    InternedFresh(table, t.ints, DescribesIntType, id, e);
    InternedFresh(table, t.floats, DescribesFloatType, id, e);
    InternedFresh(table, t.pointers, DescribesPointerType, id, e);
    InternedFresh(table, t.untypedPointers, DescribesUntypedPointerType, id, e);
    InternedFresh(table, t.literals, DescribesLiteral, id, e);
    InternedFresh(table, t.strings, DescribesString, id, e);
  }

  /** What `addIntegerType` does on a miss keeps the tables interned. */
  lemma InternIntType(table: map<Id, Entry>, t: InternTables, width: nat, id: Id)
    requires InternedBy(table, t) && id !in table
    ensures InternedBy(table[id := IntTypeEntry(id, width)], t.(ints := t.ints[width := id]))
  {
    var e := IntTypeEntry(id, width);
    InternedByFresh(table, t, id, e);
    InternedAdd(table[id := e], t.ints, DescribesIntType, width, id);
  }

  /** What `addFloatType` does on a miss keeps the tables interned. */
  lemma InternFloatType(table: map<Id, Entry>, t: InternTables, desc: (nat, nat), id: Id)
    requires InternedBy(table, t) && id !in table
    ensures InternedBy(table[id := FloatTypeEntry(id, desc)], t.(floats := t.floats[desc := id]))
  {
    var e := FloatTypeEntry(id, desc);
    InternedByFresh(table, t, id, e);
    InternedAdd(table[id := e], t.floats, DescribesFloatType, desc, id);
  }

  /** What `addPointerType` with an element type does on a miss keeps the
      tables interned. */
  lemma InternPointerType(table: map<Id, Entry>, t: InternTables, desc: (StorageClass, Id), id: Id)
    requires InternedBy(table, t) && id !in table
    ensures InternedBy(table[id := PointerTypeEntry(id, desc)], t.(pointers := t.pointers[desc := id]))
  {
    var e := PointerTypeEntry(id, desc);
    InternedByFresh(table, t, id, e);
    InternedAdd(table[id := e], t.pointers, DescribesPointerType, desc, id);
  }

  /** What `addPointerType` without an element type does on a miss keeps the
      tables interned. */
  lemma InternUntypedPointerType(table: map<Id, Entry>, t: InternTables, storageClass: StorageClass, id: Id)
    requires InternedBy(table, t) && id !in table
    ensures InternedBy(table[id := UntypedPointerTypeEntry(id, storageClass)],
                       t.(untypedPointers := t.untypedPointers[storageClass := id]))
  {
    var e := UntypedPointerTypeEntry(id, storageClass);
    InternedByFresh(table, t, id, e);
    InternedAdd(table[id := e], t.untypedPointers, DescribesUntypedPointerType, storageClass, id);
  }

  /** What `getLiteralAsConstant` does on a miss, once the 32-bit integer
      type exists, keeps the tables interned. */
  lemma InternLiteral(table: map<Id, Entry>, t: InternTables, intType: Id, literal: Word, id: Id)
    requires InternedBy(table, t) && id !in table
    ensures InternedBy(table[id := LiteralEntry(id, intType, literal)], t.(literals := t.literals[literal := id]))
  {
    var e := LiteralEntry(id, intType, literal);
    InternedByFresh(table, t, id, e);
    InternedAdd(table[id := e], t.literals, DescribesLiteral, literal, id);
  }

  /** What `getString` does on a miss keeps the tables interned. */
  lemma InternString(table: map<Id, Entry>, t: InternTables, s: string, id: Id)
    requires InternedBy(table, t) && id !in table
    ensures InternedBy(table[id := StringEntry(id, s)], t.(strings := t.strings[s := id]))
  {
    var e := StringEntry(id, s);
    InternedByFresh(table, t, id, e);
    InternedAdd(table[id := e], t.strings, DescribesString, s, id);
  }

  /** What `addBoolType` and `addVoidType` do on a miss keeps the tables
      interned. */
  lemma InternBoolAndVoidTypes(table: map<Id, Entry>, t: InternTables, id: Id)
    requires InternedBy(table, t) && id !in table
    ensures InternedBy(table[id := BoolTypeEntry(id)], t.(boolType := Some(id)))
    ensures InternedBy(table[id := VoidTypeEntry(id)], t.(voidType := Some(id)))
  {
    InternedByFresh(table, t, id, BoolTypeEntry(id));
    InternedByFresh(table, t, id, VoidTypeEntry(id));
  }

  /** An interned key is found again: the table names an entry of the id
      table that is the integer type of that width, and so on for each
      table. */
  lemma InternedLookup(table: map<Id, Entry>, t: InternTables, width: nat, float: (nat, nat),
                        pointer: (StorageClass, Id), storageClass: StorageClass, literal: Word, s: string)
    requires InternedBy(table, t)
    ensures width in t.ints ==> t.ints[width] in table && table[t.ints[width]] == IntTypeEntry(t.ints[width], width)
    ensures float in t.floats ==>
              t.floats[float] in table && table[t.floats[float]] == FloatTypeEntry(t.floats[float], float)
    ensures pointer in t.pointers ==>
              t.pointers[pointer] in table && table[t.pointers[pointer]] == PointerTypeEntry(t.pointers[pointer], pointer)
    ensures storageClass in t.untypedPointers ==>
              var id := t.untypedPointers[storageClass];
              id in table && table[id] == UntypedPointerTypeEntry(id, storageClass)
    ensures literal in t.literals ==>
              var id := t.literals[literal];
              && id in table && table[id].Entity? && table[id].id == id && table[id].opCode == OpConstant
              && |table[id].operands| == 2 && table[id].operands[1] == literal
    ensures s in t.strings ==> t.strings[s] in table && table[t.strings[s]] == StringEntry(t.strings[s], s)
    ensures t.boolType.Some? ==> t.boolType.value in table && table[t.boolType.value] == BoolTypeEntry(t.boolType.value)
    ensures t.voidType.Some? ==> t.voidType.value in table && table[t.voidType.value] == VoidTypeEntry(t.voidType.value)
  {
  }

  /** Mapping an entity keeps the tables interned when its id is new, holds
      the same entity, or holds a placeholder. */
  lemma EntryMapped(table: map<Id, Entry>, t: InternTables, e: Entry)
    requires InternedBy(table, t) && e.Entity?
    requires e.id in table ==> table[e.id] == e || OpCodeOf(table[e.id]) == OpForward
    ensures InternedBy(table[e.id := e], t)
  {
    if e.id !in table {
      InternedByFresh(table, t, e.id, e);
    } else if table[e.id] == e {
      assert table[e.id := e] == table;
    } else {
      PlaceholderNotInterned(table, t, e.id);
      InternedByAway(table, t, e.id, e);
    }
  }

  /** `id` is named by an interning table or is the cached bool or void
      type. */
  ghost predicate InternsId(t: InternTables, id: Id) {
    || id in t.ints.Values || id in t.floats.Values || id in t.pointers.Values
    || id in t.untypedPointers.Values || id in t.literals.Values || id in t.strings.Values
    || t.boolType == Some(id) || t.voidType == Some(id)
  }

  /** A table entry no interning table names can be replaced or dropped. */
  lemma InternedAway<K(!new)>(table: map<Id, Entry>, m: map<K, Id>, describes: (K, Entry) -> bool, id: Id, e: Entry)
    requires InternedIn(table, m, describes) && id !in m.Values
    ensures InternedIn(table[id := e], m, describes) && InternedIn(table - {id}, m, describes)
  {
    forall k | k in m
      ensures m[k] != id
    {
      assert m[k] in m.Values;
    }
  }

  /** Replacing or dropping an id no interning table names keeps the tables
      interned. */
  lemma InternedByAway(table: map<Id, Entry>, t: InternTables, id: Id, e: Entry)
    requires InternedBy(table, t) && !InternsId(t, id)
    ensures InternedBy(table[id := e], t) && InternedBy(table - {id}, t)
  {
    InternedAway(table, t.ints, DescribesIntType, id, e);
    InternedAway(table, t.floats, DescribesFloatType, id, e);
    InternedAway(table, t.pointers, DescribesPointerType, id, e);
    InternedAway(table, t.untypedPointers, DescribesUntypedPointerType, id, e);
    InternedAway(table, t.literals, DescribesLiteral, id, e);
    InternedAway(table, t.strings, DescribesString, id, e);
  }

  /** No interning table names a forward placeholder: each names an entry of
      its own kind. */
  lemma PlaceholderNotInterned(table: map<Id, Entry>, t: InternTables, id: Id)
    requires InternedBy(table, t) && id in table && OpCodeOf(table[id]) == OpForward
    ensures !InternsId(t, id)
  {
    forall k | k in t.ints ensures t.ints[k] != id { }
    forall k | k in t.floats ensures t.floats[k] != id { }
    forall k | k in t.pointers ensures t.pointers[k] != id { }
    forall k | k in t.untypedPointers ensures t.untypedPointers[k] != id { }
    forall k | k in t.literals ensures t.literals[k] != id { }
    forall k | k in t.strings ensures t.strings[k] != id { }
  }

  /** `from` replaced by `to` among the values of `m`. */
  function RenameValues<K>(m: map<K, Id>, from: Id, to: Id): (r: map<K, Id>)
    ensures r.Keys == m.Keys
    ensures forall k :: k in m ==> r[k] == if m[k] == from then to else m[k]
  {
    map k | k in m :: if m[k] == from then to else m[k]
  }

  function RenameOption(o: Option<Id>, from: Id, to: Id): Option<Id> {
    if o == Some(from) then Some(to) else o
  }

  /** The interning tables hold the entities themselves, so an entity whose
      id changes is found under its new id. */
  function RenameInterned(t: InternTables, from: Id, to: Id): InternTables {
    InternTables(RenameValues(t.ints, from, to), RenameValues(t.floats, from, to),
                 RenameValues(t.pointers, from, to), RenameValues(t.untypedPointers, from, to),
                 RenameValues(t.literals, from, to), RenameValues(t.strings, from, to),
                 RenameOption(t.boolType, from, to), RenameOption(t.voidType, from, to))
  }

  /** The entity under `from` moved to `to`, where nothing interned was. */
  lemma InternedMoved<K(!new)>(table: map<Id, Entry>, m: map<K, Id>, describes: (K, Entry) -> bool,
                               from: Id, to: Id, moved: Entry)
    requires InternedIn(table, m, describes) && to !in m.Values && from != to
    requires moved.Entity? && moved.id == to
    requires forall k :: k in m && m[k] == from ==> describes(k, moved)
    ensures InternedIn((table - {from})[to := moved], RenameValues(m, from, to), describes)
  {
    forall k | k in m
      ensures m[k] != to
    {
      assert m[k] in m.Values;
    }
  }

  /** `replaceForward` with an entity of another id keeps the tables
      interned once they follow the entity to the placeholder's id. */
  lemma InternedByMoved(table: map<Id, Entry>, t: InternTables, from: Id, to: Id)
    requires InternedBy(table, t) && from in table && table[from].Entity? && table[from].id == from
    requires to in table && OpCodeOf(table[to]) == OpForward && from != to
    ensures InternedBy((table - {from})[to := table[from].(id := to)], RenameInterned(t, from, to))
  {
    PlaceholderNotInterned(table, t, to);
    TypesMoved(table, t, from, to);
    ValuesMoved(table, t, from, to);
  }

  lemma TypesMoved(table: map<Id, Entry>, t: InternTables, from: Id, to: Id)
    requires InternedBy(table, t) && from in table && table[from].Entity? && table[from].id == from
    requires !InternsId(t, to) && from != to
    ensures var moved := (table - {from})[to := table[from].(id := to)];
            && InternedIn(moved, RenameValues(t.ints, from, to), DescribesIntType)
            && InternedIn(moved, RenameValues(t.floats, from, to), DescribesFloatType)
            && InternedIn(moved, RenameValues(t.pointers, from, to), DescribesPointerType)
            && InternedIn(moved, RenameValues(t.untypedPointers, from, to), DescribesUntypedPointerType)
  {
    var e := table[from];
    var moved := e.(id := to);
    forall k | k in t.ints && t.ints[k] == from ensures DescribesIntType(k, moved) {
      assert e == IntTypeEntry(from, k);
    }
    forall k | k in t.floats && t.floats[k] == from ensures DescribesFloatType(k, moved) {
      assert e == FloatTypeEntry(from, k);
    }
    forall k | k in t.pointers && t.pointers[k] == from ensures DescribesPointerType(k, moved) {
      assert e == PointerTypeEntry(from, k);
    }
    forall k | k in t.untypedPointers && t.untypedPointers[k] == from
      ensures DescribesUntypedPointerType(k, moved)
    {
      assert e == UntypedPointerTypeEntry(from, k);
    }
    InternedMoved(table, t.ints, DescribesIntType, from, to, moved);
    InternedMoved(table, t.floats, DescribesFloatType, from, to, moved);
    InternedMoved(table, t.pointers, DescribesPointerType, from, to, moved);
    InternedMoved(table, t.untypedPointers, DescribesUntypedPointerType, from, to, moved);
  }

  lemma ValuesMoved(table: map<Id, Entry>, t: InternTables, from: Id, to: Id)
    requires InternedBy(table, t) && from in table && table[from].Entity? && table[from].id == from
    requires !InternsId(t, to) && from != to
    ensures var moved := (table - {from})[to := table[from].(id := to)];
            && InternedIn(moved, RenameValues(t.literals, from, to), DescribesLiteral)
            && InternedIn(moved, RenameValues(t.strings, from, to), DescribesString)
            && (t.boolType == Some(from) ==> moved[to] == BoolTypeEntry(to))
            && (t.voidType == Some(from) ==> moved[to] == VoidTypeEntry(to))
  {
    var e := table[from];
    var moved := e.(id := to);
    forall k | k in t.strings && t.strings[k] == from ensures DescribesString(k, moved) {
      assert e == StringEntry(from, k);
    }
    InternedMoved(table, t.literals, DescribesLiteral, from, to, moved);
    InternedMoved(table, t.strings, DescribesString, from, to, moved);
  }

  // -----------------------------------------------------------------------
  // The module

  class Module {
    /** The extensions the translator options allow. */
    const allowedExtensions: set<string>
    /** The capabilities and the extension an entry requires. */
    const requiredCapabilities: Entry -> seq<Cap>
    const requiredExtension: Entry -> Option<string>
    /** What a capability implies, and the extension it requires. */
    const impliedCapabilities: ImpliedTable
    const capabilityExtension: Cap -> Option<string>
    /** The capabilities an execution model requires. */
    const modelCapabilities: ExecModel -> seq<Cap>

    var autoAddCapability: bool
    var autoAddExtensions: bool
    var isValid: bool
    var nextId: Id
    var spirvVersion: Word
    var maxVersion: Word
    var generatorId: Half
    var generatorVer: Half
    var instSchema: Word

    var idEntryMap: map<Id, Entry>
    /** Pointer ids declared by OpTypeForwardPointer, with their storage class. */
    var idTypeForwardMap: map<Id, StorageClass>

    /** The vectors `layoutEntry` fills: strings, member names, variables,
        inline assembly targets, aliasing declarations, inline assembly,
        types and constants. */
    var sections: SectionVectors
    var decorateVec: seq<Decoration>
    var decGroupVec: seq<DecorationGroup>
    var namedId: set<Id>

    var capabilities: set<Cap>
    var conditionalCapabilities: set<(Id, Cap)>
    var extensions: set<string>

    var entryPointVec: seq<EntryPoint>
    var entryPointSet: map<ExecModel, set<Id>>
    var conditionalEntryPointVec: seq<ConditionalEntryPoint>
    var conditionalEntryPointSet: map<ExecModel, set<Id>>

    var interned: InternTables

    var currentLine: Option<Line>
    /** How many distinct line records have been created. */
    var linesCreated: nat

    // ---------------------------------------------------------------------
    // How capabilities and extensions grow

    /** The extension names that declaring the capabilities `caps` inserts:
        those of the required extensions the options allow. */
    function CapabilityExtensions(caps: set<Cap>): set<string> {
      CapabilityExtensionsOf(capabilityExtension, allowedExtensions, caps)
    }

    /** The extension names that adding each of `exts` inserts: those of the
        allowed ones. */
    function ExtensionEffects(exts: set<string>): set<string> {
      set e, x | e in exts && e in allowedExtensions && x in ExtensionEffect(e) :: x
    }

    predicate CapabilityExtensionsAllowed(caps: set<Cap>) {
      CapabilityExtensionsAllowedBy(capabilityExtension, allowedExtensions, caps)
    }

    /** The capability set, the extension set and the validity flag went from
        the first triple to the second by declaring `addedCaps` and, when
        extensions are added automatically, the extensions the newly declared
        capabilities require and `addedExts`. A required extension the
        options do not allow is not inserted and makes the module invalid. */
    ghost predicate Grown(caps0: set<Cap>, exts0: set<string>, valid0: bool,
                          caps1: set<Cap>, exts1: set<string>, valid1: bool,
                          addedCaps: set<Cap>, addedExts: set<string>, auto: bool)
    {
      var newCaps := addedCaps - caps0;
      && caps1 == caps0 + addedCaps
      && exts1 == exts0 + (if auto then CapabilityExtensions(newCaps) + ExtensionEffects(addedExts) else {})
      && valid1 == (valid0 && (!auto || (CapabilityExtensionsAllowed(newCaps) && addedExts <= allowedExtensions)))
    }

    lemma CapabilityExtensionsUnion(x: set<Cap>, y: set<Cap>)
      ensures CapabilityExtensions(x + y) == CapabilityExtensions(x) + CapabilityExtensions(y)
      ensures CapabilityExtensionsAllowed(x + y) <==> CapabilityExtensionsAllowed(x) && CapabilityExtensionsAllowed(y)
    {
    }

    lemma ExtensionEffectsUnion(x: set<string>, y: set<string>)
      ensures ExtensionEffects(x + y) == ExtensionEffects(x) + ExtensionEffects(y)
    {
    }

    lemma ExtensionEffectsSingleton(ext: string)
      ensures ext in allowedExtensions ==> ExtensionEffects({ext}) == ExtensionEffect(ext)
      ensures ext !in allowedExtensions ==> ExtensionEffects({ext}) == {}
    {
      if ext in allowedExtensions {
        forall x | x in ExtensionEffect(ext)
          ensures x in ExtensionEffects({ext})
        {
          assert ext in {ext};
        }
      }
    }

    lemma CapabilityExtensionsSingleton(c: Cap)
      ensures capabilityExtension(c).Some? && capabilityExtension(c).value in allowedExtensions
              ==> CapabilityExtensions({c}) == ExtensionEffect(capabilityExtension(c).value)
      ensures capabilityExtension(c).None? || capabilityExtension(c).value !in allowedExtensions
              ==> CapabilityExtensions({c}) == {}
      ensures CapabilityExtensionsAllowed({c})
              <==> capabilityExtension(c).None? || capabilityExtension(c).value in allowedExtensions
    {
      if capabilityExtension(c).Some? && capabilityExtension(c).value in allowedExtensions {
        forall x | x in ExtensionEffect(capabilityExtension(c).value)
          ensures x in CapabilityExtensions({c})
        {
          assert c in {c};
        }
      }
    }

    /** Capabilities that need no extension only grow the capability set. */
    lemma GrownWithoutExtensions(caps0: set<Cap>, exts0: set<string>, valid0: bool,
                                 caps1: set<Cap>, exts1: set<string>, valid1: bool,
                                 addedCaps: set<Cap>, auto: bool)
      requires forall c :: c in addedCaps ==> capabilityExtension(c).None?
      requires Grown(caps0, exts0, valid0, caps1, exts1, valid1, addedCaps, {}, auto)
      ensures caps1 == caps0 + addedCaps && exts1 == exts0 && valid1 == valid0
    {
      assert CapabilityExtensions(addedCaps - caps0) == {};
      assert ExtensionEffects({}) == {};
    }

    lemma GrownRefl(caps: set<Cap>, exts: set<string>, valid: bool, addedExts: set<string>, auto: bool)
      requires !auto || addedExts == {}
      ensures Grown(caps, exts, valid, caps, exts, valid, {}, addedExts, auto)
    {
      assert CapabilityExtensions({}) == {};
      assert ExtensionEffects({}) == {};
    }

    /** Growth composes: two steps are one step that declares both. */
    lemma GrownTrans(caps0: set<Cap>, exts0: set<string>, valid0: bool,
                     caps1: set<Cap>, exts1: set<string>, valid1: bool,
                     caps2: set<Cap>, exts2: set<string>, valid2: bool,
                     capsA: set<Cap>, extsA: set<string>, capsB: set<Cap>, extsB: set<string>, auto: bool)
      requires Grown(caps0, exts0, valid0, caps1, exts1, valid1, capsA, extsA, auto)
      requires Grown(caps1, exts1, valid1, caps2, exts2, valid2, capsB, extsB, auto)
      ensures Grown(caps0, exts0, valid0, caps2, exts2, valid2, capsA + capsB, extsA + extsB, auto)
    {
      assert (capsA + capsB) - caps0 == (capsA - caps0) + (capsB - caps1);
      CapabilityExtensionsUnion(capsA - caps0, capsB - caps1);
      ExtensionEffectsUnion(extsA, extsB);
    }

    /** Two rounds of capabilities alone add their union. */
    lemma GrownTransCaps(caps0: set<Cap>, exts0: set<string>, valid0: bool,
                         caps1: set<Cap>, exts1: set<string>, valid1: bool,
                         caps2: set<Cap>, exts2: set<string>, valid2: bool,
                         capsA: set<Cap>, capsB: set<Cap>, auto: bool)
      requires Grown(caps0, exts0, valid0, caps1, exts1, valid1, capsA, {}, auto)
      requires Grown(caps1, exts1, valid1, caps2, exts2, valid2, capsB, {}, auto)
      ensures Grown(caps0, exts0, valid0, caps2, exts2, valid2, capsA + capsB, {}, auto)
    {
      var none: set<string> := {};
      GrownTrans(caps0, exts0, valid0, caps1, exts1, valid1, caps2, exts2, valid2, capsA, none, capsB, none, auto);
      assert none + none == none;
    }

    /** Declaring capabilities that are all present already changes nothing. */
    lemma GrownByPresentCapabilities(caps0: set<Cap>, exts0: set<string>, valid0: bool,
                                     caps1: set<Cap>, exts1: set<string>, valid1: bool,
                                     addedCaps: set<Cap>, auto: bool)
      requires addedCaps <= caps0
      requires Grown(caps0, exts0, valid0, caps1, exts1, valid1, addedCaps, {}, auto)
      ensures caps1 == caps0 && exts1 == exts0 && valid1 == valid0
    {
      assert addedCaps - caps0 == {};
      assert CapabilityExtensions({}) == {};
      assert ExtensionEffects({}) == {};
    }

    // ---------------------------------------------------------------------
    // Construction

    /** No entry, name, entry point, interned type or line is recorded. */
    ghost predicate HoldsNothing()
      reads this
    {
      && idEntryMap == map[] && idTypeForwardMap == map[] && conditionalCapabilities == {}
      && sections == NoSections
      && decorateVec == [] && decGroupVec == [] && namedId == {}
      && entryPointVec == [] && entryPointSet == map[]
      && conditionalEntryPointVec == [] && conditionalEntryPointSet == map[]
      && interned == NoInternTables && currentLine == None && linesCreated == 0
    }

    /** A fresh module: id 1 is the next id, SPIR-V 1.0, this translator as
        generator, the default schema, and the OpenCL memory model, which
        declares the Kernel capability. */
    constructor (allowedExtensions: set<string>, requiredCapabilities: Entry -> seq<Cap>,
                 requiredExtension: Entry -> Option<string>, impliedCapabilities: ImpliedTable,
                 capabilityExtension: Cap -> Option<string>, modelCapabilities: ExecModel -> seq<Cap>,
                 maxVersion: Word)
      ensures this.allowedExtensions == allowedExtensions && this.impliedCapabilities == impliedCapabilities
      ensures autoAddCapability && autoAddExtensions
      ensures nextId == 1 && spirvVersion == MinimumVersion && this.maxVersion == maxVersion
      ensures generatorId == GeneratorKhronosTranslator && generatorVer == 0 && instSchema == DefaultSchema
      ensures Grown({}, {}, true, capabilities, extensions, isValid, Closure(impliedCapabilities, CapabilityKernel), {}, true)
      ensures HoldsNothing()
      ensures Valid()
    {
      this.allowedExtensions := allowedExtensions;
      this.requiredCapabilities := requiredCapabilities;
      this.requiredExtension := requiredExtension;
      this.impliedCapabilities := impliedCapabilities;
      this.capabilityExtension := capabilityExtension;
      this.modelCapabilities := modelCapabilities;
      autoAddCapability := true;
      autoAddExtensions := true;
      // The OpenCL memory model declares Kernel: what AddCapability does to
      // a module without capabilities or extensions.
      var kernel := Closure(impliedCapabilities, CapabilityKernel);
      capabilities := kernel;
      extensions := CapabilityExtensionsOf(capabilityExtension, allowedExtensions, kernel);
      isValid := CapabilityExtensionsAllowedBy(capabilityExtension, allowedExtensions, kernel);
      nextId := 1;
      spirvVersion := MinimumVersion;
      this.maxVersion := maxVersion;
      generatorId := GeneratorKhronosTranslator;
      generatorVer := 0;
      instSchema := DefaultSchema;
      idEntryMap := map[];
      idTypeForwardMap := map[];
      sections := NoSections;
      decorateVec, decGroupVec := [], [];
      namedId := {};
      conditionalCapabilities := {};
      entryPointVec, entryPointSet := [], map[];
      conditionalEntryPointVec, conditionalEntryPointSet := [], map[];
      interned := NoInternTables;
      currentLine := None;
      linesCreated := 0;
      new;
      assert ExtensionEffects({}) == {};
    }

    // ---------------------------------------------------------------------
    // Ids and lookup

    /** Every id in use lies below the next id to hand out. */
    ghost predicate FreshIds()
      reads this`idEntryMap, this`nextId
    {
      forall id :: id in idEntryMap ==> id < nextId
    }

    /** The invariant of a module: every id in use lies below the next id,
        and every interning table names entries of the id table that match
        their keys. The constructor establishes it, and every method that
        hands out ids, maps entries, interns or erases keeps it (under the
        condition its contract names); the other methods leave the id
        table, the next id and the interning tables alone. */
    ghost predicate Valid()
      reads this`idEntryMap, this`nextId, this`interned
    {
      FreshIds() && InternedBy(idEntryMap, interned)
    }

    /** `getId`: an invalid request takes the next id; a valid one is kept and
        pushes the next id past it. `increment` ids are reserved. */
    method GetId(requested: Id, increment: nat) returns (id: Id)
      modifies this`nextId
      ensures IsValidId(requested) ==> id == requested && nextId == Max(requested, old(nextId)) + increment
      ensures !IsValidId(requested) ==> id == old(nextId) && nextId == old(nextId) + increment
      ensures increment > 0 ==> id < nextId
      ensures old(Valid()) ==> Valid()
      ensures old(FreshIds()) && !IsValidId(requested) ==> id !in idEntryMap
    {
      id := requested;
      if !IsValidId(id) {
        id := nextId;
      } else {
        nextId := Max(id, nextId);
      }
      nextId := nextId + increment;
    }

    /** `getEntry`: the id table first, then the forward-declared pointers;
        `None` where the source asserts. */
    function GetEntry(id: Id): (r: Option<Entry>)
      reads this`idEntryMap, this`idTypeForwardMap
      requires id != InvalidId
      ensures id in idEntryMap ==> r == Some(idEntryMap[id])
      ensures id !in idEntryMap && id in idTypeForwardMap ==> r == Some(ForwardPointer(id, idTypeForwardMap[id]))
      ensures r.None? <==> id !in idEntryMap && id !in idTypeForwardMap
    {
      if id in idEntryMap then Some(idEntryMap[id])
      else if id in idTypeForwardMap then Some(ForwardPointer(id, idTypeForwardMap[id]))
      else None
    }

    /** `exist`: only the id table counts; a pointer that is only forward
        declared is found by `GetEntry` but does not exist. */
    function Exist(id: Id): (r: bool)
      reads this`idEntryMap, this`idTypeForwardMap
      requires id != InvalidId
      ensures r ==> id in idEntryMap && GetEntry(id) == Some(idEntryMap[id])
      ensures !r && GetEntry(id).Some? ==> GetEntry(id).value.ForwardPointer?
    {
      id in idEntryMap
    }

    // ---------------------------------------------------------------------
    // Capabilities and extensions

    /** `addExtension`: an extension the options do not allow makes the
        module invalid; otherwise it is inserted with the extensions it
        extends. */
    method AddExtension(ext: string)
      modifies this`extensions, this`isValid
      ensures ext in allowedExtensions ==> extensions == old(extensions) + ExtensionEffect(ext) && isValid == old(isValid)
      ensures ext !in allowedExtensions ==> extensions == old(extensions) && !isValid
    {
      if ext !in allowedExtensions {
        SetInvalid();
        return;
      }
      extensions := extensions + {ext};
      if ext == AtomicFloat16AddExtension {
        extensions := extensions + {AtomicFloatAddExtension};
      }
    }

    lemma AddExtensionGrows(caps: set<Cap>, exts0: set<string>, valid0: bool, exts1: set<string>, valid1: bool, ext: string)
      requires ext in allowedExtensions ==> exts1 == exts0 + ExtensionEffect(ext) && valid1 == valid0
      requires ext !in allowedExtensions ==> exts1 == exts0 && !valid1
      ensures Grown(caps, exts0, valid0, caps, exts1, valid1, {}, {ext}, true)
    {
      ExtensionEffectsSingleton(ext);
      var none: set<Cap> := {};
      assert none - caps == none;
      assert CapabilityExtensions(none) == {};
    }

    /** One capability declared on its own. */
    lemma GrownByOne(caps0: set<Cap>, exts0: set<string>, valid0: bool,
                     caps1: set<Cap>, exts1: set<string>, valid1: bool, c: Cap, auto: bool)
      requires c in caps0 ==> caps1 == caps0 && exts1 == exts0 && valid1 == valid0
      requires c !in caps0 ==> caps1 == caps0 + {c}
      requires c !in caps0 && auto && capabilityExtension(c).Some? ==>
                 var ext := capabilityExtension(c).value;
                 (ext in allowedExtensions ==> exts1 == exts0 + ExtensionEffect(ext) && valid1 == valid0)
                 && (ext !in allowedExtensions ==> exts1 == exts0 && !valid1)
      requires c !in caps0 && !(auto && capabilityExtension(c).Some?) ==> exts1 == exts0 && valid1 == valid0
      ensures Grown(caps0, exts0, valid0, caps1, exts1, valid1, {c}, {}, auto)
    {
      assert ExtensionEffects({}) == {};
      if c in caps0 {
        var none: set<Cap> := {};
        assert {c} - caps0 == none;
        assert CapabilityExtensions(none) == {};
      } else {
        assert {c} - caps0 == {c};
        CapabilityExtensionsSingleton(c);
      }
    }

    /** `addCapability`: first everything `c` implies, then `c` itself with
        the extension it requires. */
    method AddCapability(c: Cap)
      modifies this`capabilities, this`extensions, this`isValid
      ensures Grown(old(capabilities), old(extensions), old(isValid), capabilities, extensions, isValid,
                    Closure(impliedCapabilities, c), {}, autoAddExtensions)
      decreases c, 1, 0
    {
      BoundAtMost(impliedCapabilities(c), c);
      AddCapabilities(impliedCapabilities(c));
      ghost var caps1, exts1, valid1 := capabilities, extensions, isValid;
      if c !in capabilities {
        var ext := capabilityExtension(c);
        if autoAddExtensions && ext.Some? {
          AddExtension(ext.value);
        }
        capabilities := capabilities + {c};
      }
      GrownByOne(caps1, exts1, valid1, capabilities, extensions, isValid, c, autoAddExtensions);
      GrownTransCaps(old(capabilities), old(extensions), old(isValid), caps1, exts1, valid1,
                     capabilities, extensions, isValid,
                     ClosureAll(impliedCapabilities, impliedCapabilities(c)), {c}, autoAddExtensions);
      assert ClosureAll(impliedCapabilities, impliedCapabilities(c)) + {c} == Closure(impliedCapabilities, c);
    }

    /** One turn of the loop of `AddCapabilities`: the declarations so far
        and those of `cs[i]` make those of `cs[..i + 1]`. */
    lemma GrownByNextCapability(caps0: set<Cap>, exts0: set<string>, valid0: bool,
                                caps1: set<Cap>, exts1: set<string>, valid1: bool,
                                caps2: set<Cap>, exts2: set<string>, valid2: bool,
                                cs: seq<Cap>, i: nat, auto: bool)
      requires i < |cs|
      requires Grown(caps0, exts0, valid0, caps1, exts1, valid1, ClosureAll(impliedCapabilities, cs[..i]), {}, auto)
      requires Grown(caps1, exts1, valid1, caps2, exts2, valid2, Closure(impliedCapabilities, cs[i]), {}, auto)
      ensures Grown(caps0, exts0, valid0, caps2, exts2, valid2, ClosureAll(impliedCapabilities, cs[..i + 1]), {}, auto)
    {
      GrownTransCaps(caps0, exts0, valid0, caps1, exts1, valid1, caps2, exts2, valid2,
                     ClosureAll(impliedCapabilities, cs[..i]), Closure(impliedCapabilities, cs[i]), auto);
      ClosureAllStep(impliedCapabilities, cs, i);
    }

    /** `addCapabilities`: each capability of `cs` in order. */
    method AddCapabilities(cs: seq<Cap>)
      modifies this`capabilities, this`extensions, this`isValid
      ensures Grown(old(capabilities), old(extensions), old(isValid), capabilities, extensions, isValid,
                    ClosureAll(impliedCapabilities, cs), {}, autoAddExtensions)
      decreases Bound(cs), 0, 0
    {
      GrownRefl(capabilities, extensions, isValid, {}, autoAddExtensions);
      var i := 0;
      while i < |cs|
        invariant 0 <= i <= |cs|
        invariant Grown(old(capabilities), old(extensions), old(isValid), capabilities, extensions, isValid,
                        ClosureAll(impliedCapabilities, cs[..i]), {}, autoAddExtensions)
      {
        ghost var caps1, exts1, valid1 := capabilities, extensions, isValid;
        assert cs[i] in cs;
        AddCapability(cs[i]);
        GrownByNextCapability(old(capabilities), old(extensions), old(isValid), caps1, exts1, valid1,
                              capabilities, extensions, isValid, cs, i, autoAddExtensions);
        i := i + 1;
      }
      assert cs[..|cs|] == cs;
    }

    /** `addConditionalCapability`: recorded once per condition and
        capability. Adding extensions for it automatically is not supported,
        so a new pair may only come while that is switched off. */
    method AddConditionalCapability(condition: Id, c: Cap)
      requires (condition, c) !in conditionalCapabilities ==> !autoAddExtensions
      modifies this`conditionalCapabilities
      ensures conditionalCapabilities == old(conditionalCapabilities) + {(condition, c)}
    {
      if (condition, c) in conditionalCapabilities {
        return;
      }
      conditionalCapabilities := conditionalCapabilities + {(condition, c)};
    }

    method EraseConditionalCapability(condition: Id, c: Cap)
      modifies this`conditionalCapabilities
      ensures conditionalCapabilities == old(conditionalCapabilities) - {(condition, c)}
    {
      conditionalCapabilities := conditionalCapabilities - {(condition, c)};
    }

    method EraseCapability(c: Cap)
      modifies this`capabilities
      ensures capabilities == old(capabilities) - {c}
    {
      capabilities := capabilities - {c};
    }

    // ---------------------------------------------------------------------
    // Validity and versions

    method SetInvalid()
      modifies this`isValid
      ensures !isValid
    {
      isValid := false;
    }

    function IsModuleValid(): (r: bool)
      reads this
      ensures r == isValid
    {
      isValid
    }

    function IsAllowedToUseVersion(v: Word): (r: bool)
      reads this
      ensures r <==> v <= maxVersion
    {
      v <= maxVersion
    }

    function GetMaximumAllowedSPIRVVersion(): (r: Word)
      reads this
      ensures IsAllowedToUseVersion(r) && forall v: Word :: IsAllowedToUseVersion(v) ==> v <= r
    {
      maxVersion
    }

    /** `setSPIRVVersion`: a version above the allowed maximum is refused and
        makes the module invalid. */
    method SetSPIRVVersion(v: Word)
      modifies this`spirvVersion, this`isValid
      ensures IsAllowedToUseVersion(v) ==> spirvVersion == v && isValid == old(isValid)
      ensures !IsAllowedToUseVersion(v) ==> spirvVersion == old(spirvVersion) && !isValid
      ensures old(spirvVersion) <= maxVersion ==> spirvVersion <= maxVersion
    {
      if !IsAllowedToUseVersion(v) {
        SetInvalid();
        return;
      }
      spirvVersion := v;
    }

    /** `setMinSPIRVVersion`: raises the version to at least `v`, never
        lowers it. */
    method SetMinSPIRVVersion(v: Word)
      modifies this`spirvVersion, this`isValid
      ensures IsAllowedToUseVersion(Max(v, old(spirvVersion))) ==> spirvVersion == Max(v, old(spirvVersion)) && isValid == old(isValid)
      ensures !IsAllowedToUseVersion(Max(v, old(spirvVersion))) ==> spirvVersion == old(spirvVersion) && !isValid
      ensures spirvVersion >= old(spirvVersion)
    {
      SetSPIRVVersion(Max(v, spirvVersion));
    }

    /** `setMaxSPIRVVersion`: lowers the allowed maximum, never below the
        version already required. */
    method SetMaxSPIRVVersion(v: Word)
      requires v >= spirvVersion
      modifies this`maxVersion
      ensures maxVersion == if v < old(maxVersion) then v else old(maxVersion)
      ensures maxVersion <= old(maxVersion) && maxVersion <= v
      ensures spirvVersion <= old(maxVersion) ==> spirvVersion <= maxVersion
    {
      maxVersion := if v < maxVersion then v else maxVersion;
    }
  
    // ---------------------------------------------------------------------
    // Adding entries

    /** The capabilities adding `e` declares. */
    function EntryCapabilities(e: Entry): set<Cap>
      reads this`autoAddCapability
    {
      if autoAddCapability then ClosureAll(impliedCapabilities, requiredCapabilities(e)) else {}
    }

    /** What adding `e` did to the capabilities, extensions and validity
        that were `caps0`, `exts0` and `valid0` before. */
    ghost predicate RequirementsAdded(e: Entry, caps0: set<Cap>, exts0: set<string>, valid0: bool)
      reads this`capabilities, this`extensions, this`isValid, this`autoAddCapability, this`autoAddExtensions
    {
      Grown(caps0, exts0, valid0, capabilities, extensions, isValid,
            EntryCapabilities(e), OptionSet(requiredExtension(e)), autoAddExtensions)
    }

    /** The tail of `addEntry`: the capabilities the entry requires when they
        are added automatically, then the extension it requires when
        extensions are. Adding an instruction without result id that the
        layout does not place does only this. */
    method AddRequirements(e: Entry)
      modifies this`capabilities, this`extensions, this`isValid
      ensures RequirementsAdded(e, old(capabilities), old(extensions), old(isValid))
    {
      if autoAddCapability {
        AddCapabilities(requiredCapabilities(e));
      } else {
        GrownRefl(capabilities, extensions, isValid, {}, autoAddExtensions);
      }
      ghost var caps1, exts1, valid1 := capabilities, extensions, isValid;
      var ext := requiredExtension(e);
      if autoAddExtensions && ext.Some? {
        AddExtension(ext.value);
        AddExtensionGrows(capabilities, exts1, valid1, extensions, isValid, ext.value);
      } else {
        GrownRefl(capabilities, extensions, isValid, OptionSet(ext), autoAddExtensions);
      }
      GrownTrans(old(capabilities), old(extensions), old(isValid), caps1, exts1, valid1,
                 capabilities, extensions, isValid,
                 EntryCapabilities(e), {}, {}, OptionSet(ext), autoAddExtensions);
      assert EntryCapabilities(e) + {} == EntryCapabilities(e);
      assert {} + OptionSet(ext) == OptionSet(ext);
    }

    /** The id bookkeeping of `addEntry`: maps the id (replacing a forward
        placeholder with the same id) or records a forward-declared pointer.
        An id may only be reused by the same entry or to replace a
        placeholder. */
    method MapEntry(e: Entry)
      requires e.Entity? && e.id in idEntryMap ==> idEntryMap[e.id] == e || OpCodeOf(idEntryMap[e.id]) == OpForward
      modifies this`idEntryMap, this`idTypeForwardMap
      ensures idEntryMap == if e.Entity? then old(idEntryMap)[e.id := e] else old(idEntryMap)
      ensures idTypeForwardMap == if e.ForwardPointer? then old(idTypeForwardMap)[e.pointerId := e.storageClass]
                                  else old(idTypeForwardMap)
    {
      if e.Entity? {
        if e.id in idEntryMap {
          if OpCodeOf(idEntryMap[e.id]) == OpForward {
            // replaceForward with the placeholder of the same id
            idEntryMap := idEntryMap[e.id := e];
          }
        } else {
          idEntryMap := idEntryMap[e.id := e];
        }
      } else if e.ForwardPointer? {
        idTypeForwardMap := idTypeForwardMap[e.pointerId := e.storageClass];
      }
    }

    /** `addEntry` (and `add`): the id bookkeeping, the layout, and the
        requirements of the entry. */
    method AddEntry(e: Entry) returns (r: Entry)
      requires WellFormed(e)
      requires e.Entity? && e.id in idEntryMap ==> idEntryMap[e.id] == e || OpCodeOf(idEntryMap[e.id]) == OpForward
      modifies this`idEntryMap, this`idTypeForwardMap, this`sections, this`capabilities, this`extensions, this`isValid
      ensures r == e
      ensures idEntryMap == if e.Entity? then old(idEntryMap)[e.id := e] else old(idEntryMap)
      ensures idTypeForwardMap == if e.ForwardPointer? then old(idTypeForwardMap)[e.pointerId := e.storageClass]
                                  else old(idTypeForwardMap)
      ensures sections == Layout(old(sections), e)
      ensures RequirementsAdded(e, old(capabilities), old(extensions), old(isValid))
      ensures e.Entity? ==> GetEntry(e.id) == Some(e)
      ensures e.ForwardPointer? && e.pointerId != InvalidId && e.pointerId !in idEntryMap
              ==> GetEntry(e.pointerId) == Some(e)
      ensures old(FreshIds()) && (e.Entity? ==> e.id < nextId) ==> FreshIds()
      ensures old(Valid()) && (e.Entity? ==> e.id < nextId) ==> Valid()
      ensures e.Entity? && e.id !in old(idEntryMap) ==> EntityAdded(e)
    {
      if e.Entity? && InternedBy(idEntryMap, interned) {
        EntryMapped(idEntryMap, interned, e);
      }
      MapEntry(e);
      sections := Layout(sections, e);
      AddRequirements(e);
      r := e;
    }

    // ---------------------------------------------------------------------
    // Entities with fresh ids, and interning

    /** The entity `e`, whose id was not in use, went through `addEntry`:
        mapped, laid out, and its requirements declared. */
    twostate predicate EntityAdded(e: Entry)
      reads this`idEntryMap, this`idTypeForwardMap, this`sections, this`capabilities, this`extensions,
            this`isValid, this`autoAddCapability, this`autoAddExtensions
    {
      && e.Entity? && e.id !in old(idEntryMap)
      && idEntryMap == old(idEntryMap)[e.id := e]
      && idTypeForwardMap == old(idTypeForwardMap)
      && sections == Layout(old(sections), e)
      && RequirementsAdded(e, old(capabilities), old(extensions), old(isValid))
    }

    /** `addIntegerType`: one type per bit width; asking again gives the same
        type and changes nothing. */
    method AddIntegerType(width: nat) returns (id: Id)
      requires Valid() && nextId < InvalidId
      modifies this`nextId, this`idEntryMap, this`idTypeForwardMap, this`sections, this`capabilities,
               this`extensions, this`isValid, this`interned
      ensures width in old(interned.ints) ==> id == old(interned.ints)[width] && unchanged(this)
      ensures width !in old(interned.ints) ==>
                && id == old(nextId) && nextId == id + 1
                && interned == old(interned).(ints := old(interned.ints)[width := id])
                && EntityAdded(IntTypeEntry(id, width))
      ensures Valid() && width in interned.ints && interned.ints[width] == id
    {
      if width in interned.ints {
        return interned.ints[width];
      }
      id := GetId(InvalidId, 1);
      var ty := IntTypeEntry(id, width);
      interned := interned.(ints := interned.ints[width := id]);
      var _ := AddEntry(ty);
      InternIntType(old(idEntryMap), old(interned), width, id);
    }

    /** `addFloatType`: one type per width and encoding. */
    method AddFloatType(width: nat, encoding: nat) returns (id: Id)
      requires Valid() && nextId < InvalidId
      modifies this`nextId, this`idEntryMap, this`idTypeForwardMap, this`sections, this`capabilities,
               this`extensions, this`isValid, this`interned
      ensures (width, encoding) in old(interned.floats) ==> id == old(interned.floats)[(width, encoding)] && unchanged(this)
      ensures (width, encoding) !in old(interned.floats) ==>
                && id == old(nextId) && nextId == id + 1
                && interned == old(interned).(floats := old(interned.floats)[(width, encoding) := id])
                && EntityAdded(FloatTypeEntry(id, (width, encoding)))
      ensures Valid() && (width, encoding) in interned.floats && interned.floats[(width, encoding)] == id
    {
      var desc := (width, encoding);
      if desc in interned.floats {
        return interned.floats[desc];
      }
      id := GetId(InvalidId, 1);
      var ty := FloatTypeEntry(id, desc);
      interned := interned.(floats := interned.floats[desc := id]);
      var _ := AddEntry(ty);
      InternFloatType(old(idEntryMap), old(interned), desc, id);
    }

    /** `addPointerType`: one typed pointer type per storage class and
        element type, and, without an element type, one untyped pointer type
        per storage class. */
    method AddPointerType(storageClass: StorageClass, element: Option<Id>) returns (id: Id)
      requires Valid() && nextId < InvalidId
      modifies this`nextId, this`idEntryMap, this`idTypeForwardMap, this`sections, this`capabilities,
               this`extensions, this`isValid, this`interned
      ensures element.None? && storageClass in old(interned.untypedPointers)
              ==> id == old(interned.untypedPointers)[storageClass] && unchanged(this)
      ensures element.None? && storageClass !in old(interned.untypedPointers) ==>
                && id == old(nextId) && nextId == id + 1
                && interned == old(interned).(untypedPointers := old(interned.untypedPointers)[storageClass := id])
                && EntityAdded(UntypedPointerTypeEntry(id, storageClass))
      ensures element.Some? && (storageClass, element.value) in old(interned.pointers)
              ==> id == old(interned.pointers)[(storageClass, element.value)] && unchanged(this)
      ensures element.Some? && (storageClass, element.value) !in old(interned.pointers) ==>
                && id == old(nextId) && nextId == id + 1
                && interned == old(interned).(pointers := old(interned.pointers)[(storageClass, element.value) := id])
                && EntityAdded(PointerTypeEntry(id, (storageClass, element.value)))
      ensures element.None? ==> storageClass in interned.untypedPointers && interned.untypedPointers[storageClass] == id
      ensures element.Some? ==> (storageClass, element.value) in interned.pointers
                                && interned.pointers[(storageClass, element.value)] == id
      ensures Valid()
    {
      if element.None? {
        if storageClass in interned.untypedPointers {
          return interned.untypedPointers[storageClass];
        }
        id := GetId(InvalidId, 1);
        var ty := UntypedPointerTypeEntry(id, storageClass);
        interned := interned.(untypedPointers := interned.untypedPointers[storageClass := id]);
        var _ := AddEntry(ty);
        InternUntypedPointerType(old(idEntryMap), old(interned), storageClass, id);
        return;
      }
      var desc := (storageClass, element.value);
      if desc in interned.pointers {
        return interned.pointers[desc];
      }
      id := GetId(InvalidId, 1);
      var ty := PointerTypeEntry(id, desc);
      interned := interned.(pointers := interned.pointers[desc := id]);
      var _ := AddEntry(ty);
      InternPointerType(old(idEntryMap), old(interned), desc, id);
    }

    /** `addBoolType`: the bool type is created once. */
    method AddBoolType() returns (id: Id)
      requires Valid() && nextId < InvalidId
      modifies this`nextId, this`idEntryMap, this`idTypeForwardMap, this`sections, this`capabilities,
               this`extensions, this`isValid, this`interned
      ensures old(interned.boolType).Some? ==> id == old(interned.boolType).value && unchanged(this)
      ensures old(interned.boolType).None? ==>
                && id == old(nextId) && nextId == id + 1
                && interned == old(interned).(boolType := Some(id))
                && EntityAdded(BoolTypeEntry(id))
      ensures Valid() && interned.boolType == Some(id)
    {
      if interned.boolType.Some? {
        return interned.boolType.value;
      }
      id := GetId(InvalidId, 1);
      var ty := BoolTypeEntry(id);
      interned := interned.(boolType := Some(id));
      var _ := AddEntry(ty);
      InternBoolAndVoidTypes(old(idEntryMap), old(interned), id);
    }

    /** `addVoidType`: the void type is created once. */
    method AddVoidType() returns (id: Id)
      requires Valid() && nextId < InvalidId
      modifies this`nextId, this`idEntryMap, this`idTypeForwardMap, this`sections, this`capabilities,
               this`extensions, this`isValid, this`interned
      ensures old(interned.voidType).Some? ==> id == old(interned.voidType).value && unchanged(this)
      ensures old(interned.voidType).None? ==>
                && id == old(nextId) && nextId == id + 1
                && interned == old(interned).(voidType := Some(id))
                && EntityAdded(VoidTypeEntry(id))
      ensures Valid() && interned.voidType == Some(id)
    {
      if interned.voidType.Some? {
        return interned.voidType.value;
      }
      id := GetId(InvalidId, 1);
      var ty := VoidTypeEntry(id);
      interned := interned.(voidType := Some(id));
      var _ := AddEntry(ty);
      InternBoolAndVoidTypes(old(idEntryMap), old(interned), id);
    }

    /** `getLiteralAsConstant`: one 32-bit integer constant per literal value,
        typed by the interned 32-bit integer type, which is created first
        when missing. */
    method GetLiteralAsConstant(literal: Word) returns (id: Id)
      requires Valid() && nextId + 1 < InvalidId
      modifies this`nextId, this`idEntryMap, this`idTypeForwardMap, this`sections, this`capabilities,
               this`extensions, this`isValid, this`interned
      ensures literal in old(interned.literals) ==> id == old(interned.literals)[literal] && unchanged(this)
      ensures literal !in old(interned.literals) && 32 in old(interned.ints) ==>
                && id == old(nextId) && nextId == id + 1
                && interned == old(interned).(literals := old(interned.literals)[literal := id])
                && EntityAdded(LiteralEntry(id, old(interned.ints)[32], literal))
      ensures literal !in old(interned.literals) && 32 !in old(interned.ints) ==>
                var ty := old(nextId);
                var intType, constant := IntTypeEntry(ty, 32), LiteralEntry(ty + 1, ty, literal);
                && id == ty + 1 && nextId == id + 1 && ty !in old(idEntryMap) && id !in old(idEntryMap)
                && interned == old(interned).(ints := old(interned.ints)[32 := ty],
                                              literals := old(interned.literals)[literal := id])
                && idEntryMap == old(idEntryMap)[ty := intType][id := constant]
                && idTypeForwardMap == old(idTypeForwardMap)
                && sections == Layout(Layout(old(sections), intType), constant)
                && Grown(old(capabilities), old(extensions), old(isValid), capabilities, extensions, isValid,
                         EntryCapabilities(intType) + EntryCapabilities(constant),
                         OptionSet(requiredExtension(intType)) + OptionSet(requiredExtension(constant)),
                         autoAddExtensions)
      ensures Valid() && literal in interned.literals && interned.literals[literal] == id
    {
      if literal in interned.literals {
        return interned.literals[literal];
      }
      if 32 in interned.ints {
        // `addIntegerType(32)` finds the type
        id := AddLiteral(interned.ints[32], literal);
        return;
      }
      id := AddLiteralAndType(literal);
    }

    /** `getLiteralAsConstant` when neither the literal nor the 32-bit
        integer type is interned yet: the type, then the constant. */
    method AddLiteralAndType(literal: Word) returns (id: Id)
      requires Valid() && nextId + 1 < InvalidId
      requires literal !in interned.literals && 32 !in interned.ints
      modifies this`nextId, this`idEntryMap, this`idTypeForwardMap, this`sections, this`capabilities,
               this`extensions, this`isValid, this`interned
      ensures var ty := old(nextId);
              var intType, constant := IntTypeEntry(ty, 32), LiteralEntry(ty + 1, ty, literal);
              && id == ty + 1 && nextId == id + 1 && ty !in old(idEntryMap) && id !in old(idEntryMap)
              && interned == old(interned).(ints := old(interned.ints)[32 := ty],
                                            literals := old(interned.literals)[literal := id])
              && idEntryMap == old(idEntryMap)[ty := intType][id := constant]
              && idTypeForwardMap == old(idTypeForwardMap)
              && sections == Layout(Layout(old(sections), intType), constant)
              && Grown(old(capabilities), old(extensions), old(isValid), capabilities, extensions, isValid,
                       EntryCapabilities(intType) + EntryCapabilities(constant),
                       OptionSet(requiredExtension(intType)) + OptionSet(requiredExtension(constant)),
                       autoAddExtensions)
      ensures Valid()
    {
      var ty := AddIntegerType(32);
      ghost var caps1, exts1, valid1 := capabilities, extensions, isValid;
      id := AddLiteral(ty, literal);
      GrownTrans(old(capabilities), old(extensions), old(isValid), caps1, exts1, valid1,
                 capabilities, extensions, isValid,
                 EntryCapabilities(IntTypeEntry(ty, 32)), OptionSet(requiredExtension(IntTypeEntry(ty, 32))),
                 EntryCapabilities(LiteralEntry(id, ty, literal)),
                 OptionSet(requiredExtension(LiteralEntry(id, ty, literal))), autoAddExtensions);
    }

    /** The constant part of `getLiteralAsConstant`. */
    method AddLiteral(ty: Id, literal: Word) returns (id: Id)
      requires Valid() && nextId < InvalidId
      modifies this`nextId, this`idEntryMap, this`idTypeForwardMap, this`sections, this`capabilities,
               this`extensions, this`isValid, this`interned
      ensures id == old(nextId) && nextId == id + 1
      ensures interned == old(interned).(literals := old(interned.literals)[literal := id])
      ensures EntityAdded(LiteralEntry(id, ty, literal))
      ensures Valid()
    {
      id := GetId(InvalidId, 1);
      interned := interned.(literals := interned.literals[literal := id]);
      var _ := AddEntry(LiteralEntry(id, ty, literal));
      InternLiteral(old(idEntryMap), old(interned), ty, literal, id);
    }

    /** `getString`: one string instruction per string. */
    method GetString(str: string) returns (id: Id)
      requires Valid() && nextId < InvalidId
      modifies this`nextId, this`idEntryMap, this`idTypeForwardMap, this`sections, this`capabilities,
               this`extensions, this`isValid, this`interned
      ensures str in old(interned.strings) ==> id == old(interned.strings)[str] && unchanged(this)
      ensures str !in old(interned.strings) ==>
                && id == old(nextId) && nextId == id + 1
                && interned == old(interned).(strings := old(interned.strings)[str := id])
                && EntityAdded(StringEntry(id, str))
      ensures Valid() && str in interned.strings && interned.strings[str] == id
    {
      if str in interned.strings {
        return interned.strings[str];
      }
      id := GetId(InvalidId, 1);
      interned := interned.(strings := interned.strings[str := id]);
      var _ := AddEntry(StringEntry(id, str));
      InternString(old(idEntryMap), old(interned), str, id);
    }

    // ---------------------------------------------------------------------
    // Forward placeholders

    /** `addForward(Ty)`: a placeholder under the next id. */
    method AddForward(ty: Id) returns (id: Id)
      requires Valid() && nextId < InvalidId
      modifies this`nextId, this`idEntryMap, this`idTypeForwardMap, this`sections, this`capabilities, this`extensions, this`isValid
      ensures id == old(nextId) && nextId == id + 1
      ensures EntityAdded(ForwardEntry(id, ty))
      ensures Valid()
    {
      id := GetId(InvalidId, 1);
      var _ := AddEntry(ForwardEntry(id, ty));
    }

    /** `addForward(Id, Ty)`: a placeholder under an id the caller chose,
        which may only be unused or hold a placeholder already. The next id
        does not move, so the module stays valid for an id below it (as the
        reader's ids are below the bound it took as the next id). */
    method AddForwardWithId(id: Id, ty: Id)
      requires Valid() && id != InvalidId
      requires id in idEntryMap ==> OpCodeOf(idEntryMap[id]) == OpForward
      modifies this`idEntryMap, this`idTypeForwardMap, this`sections, this`capabilities, this`extensions, this`isValid
      ensures idEntryMap == old(idEntryMap)[id := ForwardEntry(id, ty)]
      ensures idTypeForwardMap == old(idTypeForwardMap) && sections == old(sections)
      ensures RequirementsAdded(ForwardEntry(id, ty), old(capabilities), old(extensions), old(isValid))
      ensures id < nextId ==> Valid()
    {
      var _ := AddEntry(ForwardEntry(id, ty));
    }

    /** `replaceForward`: the entity takes the place of the placeholder. With
        the placeholder's id it is just mapped; with another id, that id is
        unmapped, the entity takes the placeholder's id and the decorations
        of its old id follow it; the section vectors and the interning
        tables hold the entity itself and find it under its new id. An
        entity with another id is the one the id table holds for it. */
    method ReplaceForward(forwardId: Id, e: Entry) returns (r: Entry)
      requires Valid()
      requires forwardId in idEntryMap && OpCodeOf(idEntryMap[forwardId]) == OpForward
      requires e.Entity? && (e.id != forwardId ==> e.id in idEntryMap && idEntryMap[e.id] == e)
      modifies this`idEntryMap, this`sections, this`decorateVec, this`interned
      ensures Valid()
      ensures r == e.(id := forwardId)
      ensures e.id == forwardId ==>
                idEntryMap == old(idEntryMap)[forwardId := e] && sections == old(sections)
                && decorateVec == old(decorateVec) && interned == old(interned)
      ensures e.id != forwardId ==>
                && idEntryMap == (old(idEntryMap) - {e.id})[forwardId := r]
                && sections == RenameInSections(old(sections), e.id, forwardId)
                && decorateVec == Retarget(old(decorateVec), e.id, forwardId)
                && interned == RenameInterned(old(interned), e.id, forwardId)
      ensures idEntryMap.Keys == old(idEntryMap).Keys - (if e.id == forwardId then {} else {e.id})
    {
      PlaceholderNotInterned(idEntryMap, interned, forwardId);
      if e.id == forwardId {
        InternedByAway(idEntryMap, interned, forwardId, e);
        idEntryMap := idEntryMap[forwardId := e];
        return e;
      }
      InternedByMoved(idEntryMap, interned, e.id, forwardId);
      idEntryMap := idEntryMap - {e.id};
      r := e.(id := forwardId);
      idEntryMap := idEntryMap[forwardId := r];
      sections := RenameInSections(sections, e.id, forwardId);
      decorateVec := Retarget(decorateVec, e.id, forwardId);
      interned := RenameInterned(interned, e.id, forwardId);
    }

    // ---------------------------------------------------------------------
    // Entry points

    /** The capabilities `addEntryPoint` declares for `ep`: those of the
        instruction and those of its execution model. */
    function EntryPointCapabilities(ep: EntryPoint): set<Cap>
      reads this`autoAddCapability
    {
      EntryCapabilities(EntryPointEntry(ep)) + ClosureAll(impliedCapabilities, modelCapabilities(ep.model))
    }

    function EntryPointExtensions(ep: EntryPoint): set<string> {
      OptionSet(requiredExtension(EntryPointEntry(ep)))
    }

    function AllEntryPointCapabilities(eps: seq<EntryPoint>): set<Cap>
      reads this`autoAddCapability
    {
      if eps == [] then {}
      else AllEntryPointCapabilities(eps[..|eps| - 1]) + EntryPointCapabilities(eps[|eps| - 1])
    }

    function AllEntryPointExtensions(eps: seq<EntryPoint>): set<string> {
      if eps == [] then {}
      else AllEntryPointExtensions(eps[..|eps| - 1]) + EntryPointExtensions(eps[|eps| - 1])
    }

    /** `add` of an instruction without result id followed by
        `addCapabilities(cs)`. */
    method AddWithCapabilities(e: Entry, cs: seq<Cap>)
      requires e.Annotation? && SectionOf(e.opCode, false) == NoSection
      requires e.opCode != OpTypeForwardPointer && e.opCode != OpMemberName
      requires Valid()
      modifies this`idEntryMap, this`idTypeForwardMap, this`sections, this`capabilities, this`extensions, this`isValid
      ensures Valid()
      ensures idEntryMap == old(idEntryMap) && idTypeForwardMap == old(idTypeForwardMap) && sections == old(sections)
      ensures Grown(old(capabilities), old(extensions), old(isValid), capabilities, extensions, isValid,
                    EntryCapabilities(e) + ClosureAll(impliedCapabilities, cs), OptionSet(requiredExtension(e)),
                    autoAddExtensions)
    {
      var _ := AddEntry(e);
      ghost var caps1, exts1, valid1 := capabilities, extensions, isValid;
      AddCapabilities(cs);
      GrownTrans(old(capabilities), old(extensions), old(isValid), caps1, exts1, valid1,
                 capabilities, extensions, isValid,
                 EntryCapabilities(e), OptionSet(requiredExtension(e)),
                 ClosureAll(impliedCapabilities, cs), {}, autoAddExtensions);
      assert OptionSet(requiredExtension(e)) + {} == OptionSet(requiredExtension(e));
    }

    /** `addEntryPoint`: the entry point is added, recorded for its execution
        model, and the capabilities of the model are declared. */
    method AddEntryPoint(ep: EntryPoint)
      requires ep.target != InvalidId
      requires Valid()
      modifies this`idEntryMap, this`idTypeForwardMap, this`sections, this`capabilities, this`extensions, this`isValid, this`entryPointVec, this`entryPointSet
      ensures Valid()
      ensures entryPointVec == old(entryPointVec) + [ep]
      ensures entryPointSet == InsertTarget(old(entryPointSet), ep.model, ep.target)
      ensures IsEntryPoint(ep.model, ep.target)
      ensures forall model, target :: model != ep.model && target != InvalidId
                ==> IsEntryPoint(model, target) == old(IsEntryPoint(model, target))
      ensures idEntryMap == old(idEntryMap) && idTypeForwardMap == old(idTypeForwardMap) && sections == old(sections)
      ensures Grown(old(capabilities), old(extensions), old(isValid), capabilities, extensions, isValid,
                    EntryPointCapabilities(ep), EntryPointExtensions(ep), autoAddExtensions)
    {
      RecordEntryPoint(ep);
      AddWithCapabilities(EntryPointEntry(ep), modelCapabilities(ep.model));
    }

    /** The bookkeeping half of `addEntryPoint`: appended to the vector and
        recorded for its execution model. */
    method RecordEntryPoint(ep: EntryPoint)
      requires ep.target != InvalidId
      modifies this`entryPointVec, this`entryPointSet
      ensures entryPointVec == old(entryPointVec) + [ep]
      ensures entryPointSet == InsertTarget(old(entryPointSet), ep.model, ep.target)
      ensures IsEntryPoint(ep.model, ep.target)
      ensures forall model, target :: model != ep.model && target != InvalidId
                ==> IsEntryPoint(model, target) == old(IsEntryPoint(model, target))
    {
      entryPointVec := entryPointVec + [ep];
      entryPointSet := InsertTarget(entryPointSet, ep.model, ep.target);
    }

    /** `isEntryPoint`: the plain entry points of the model are consulted;
        only a model with no plain entry point at all falls back to the
        conditional ones. */
    function IsEntryPoint(model: ExecModel, target: Id): (r: bool)
      reads this`entryPointSet, this`conditionalEntryPointSet
      requires target != InvalidId
      ensures model in entryPointSet ==> (r <==> target in entryPointSet[model])
      ensures model !in entryPointSet ==> (r <==> target in Targets(conditionalEntryPointSet, model))
    {
      if model in entryPointSet then target in entryPointSet[model]
      else model in conditionalEntryPointSet && target in conditionalEntryPointSet[model]
    }

    /** `addConditionalEntryPoint`: recorded with its condition; no
        capability of the execution model is declared. */
    method AddConditionalEntryPoint(c: ConditionalEntryPoint)
      requires c.entryPoint.target != InvalidId
      requires Valid()
      modifies this`idEntryMap, this`idTypeForwardMap, this`sections, this`capabilities, this`extensions, this`isValid, this`conditionalEntryPointVec, this`conditionalEntryPointSet
      ensures Valid()
      ensures conditionalEntryPointVec == old(conditionalEntryPointVec) + [c]
      ensures conditionalEntryPointSet == InsertTarget(old(conditionalEntryPointSet), c.entryPoint.model, c.entryPoint.target)
      ensures c.entryPoint.model !in entryPointSet ==> IsEntryPoint(c.entryPoint.model, c.entryPoint.target)
      ensures c.entryPoint.model in entryPointSet
              ==> IsEntryPoint(c.entryPoint.model, c.entryPoint.target) == old(IsEntryPoint(c.entryPoint.model, c.entryPoint.target))
      ensures idEntryMap == old(idEntryMap) && idTypeForwardMap == old(idTypeForwardMap) && sections == old(sections)
      ensures RequirementsAdded(ConditionalEntryPointEntry(c), old(capabilities), old(extensions), old(isValid))
    {
      var _ := AddEntry(ConditionalEntryPointEntry(c));
      RecordConditionalEntryPoint(c);
    }

    /** The bookkeeping half of `addConditionalEntryPoint`. */
    method RecordConditionalEntryPoint(c: ConditionalEntryPoint)
      requires c.entryPoint.target != InvalidId
      modifies this`conditionalEntryPointVec, this`conditionalEntryPointSet
      ensures conditionalEntryPointVec == old(conditionalEntryPointVec) + [c]
      ensures conditionalEntryPointSet == InsertTarget(old(conditionalEntryPointSet), c.entryPoint.model, c.entryPoint.target)
      ensures c.entryPoint.model !in entryPointSet ==> IsEntryPoint(c.entryPoint.model, c.entryPoint.target)
      ensures c.entryPoint.model in entryPointSet
              ==> IsEntryPoint(c.entryPoint.model, c.entryPoint.target) == old(IsEntryPoint(c.entryPoint.model, c.entryPoint.target))
    {
      conditionalEntryPointVec := conditionalEntryPointVec + [c];
      conditionalEntryPointSet := InsertTarget(conditionalEntryPointSet, c.entryPoint.model, c.entryPoint.target);
    }

    /** The entry points `eps` went through `addEntryPoint` in order, from
        the state given by the other arguments. */
    ghost predicate EntryPointsAdded(vec0: seq<EntryPoint>, set0: map<ExecModel, set<Id>>,
                                     caps0: set<Cap>, exts0: set<string>, valid0: bool, eps: seq<EntryPoint>)
      reads this`entryPointVec, this`entryPointSet, this`capabilities, this`extensions, this`isValid,
            this`autoAddCapability, this`autoAddExtensions
    {
      && entryPointVec == vec0 + eps
      && entryPointSet == InsertTargets(set0, eps)
      && Grown(caps0, exts0, valid0, capabilities, extensions, isValid,
               AllEntryPointCapabilities(eps), AllEntryPointExtensions(eps), autoAddExtensions)
    }

    /** One turn of the loop of `AddEntryPoints`. */
    method AddNextEntryPoint(ghost vec0: seq<EntryPoint>, ghost set0: map<ExecModel, set<Id>>,
                             ghost caps0: set<Cap>, ghost exts0: set<string>, ghost valid0: bool,
                             ghost done: seq<EntryPoint>, ep: EntryPoint)
      requires ep.target != InvalidId
      requires EntryPointsAdded(vec0, set0, caps0, exts0, valid0, done)
      requires Valid()
      modifies this`idEntryMap, this`idTypeForwardMap, this`sections, this`capabilities, this`extensions, this`isValid, this`entryPointVec, this`entryPointSet
      ensures Valid()
      ensures EntryPointsAdded(vec0, set0, caps0, exts0, valid0, done + [ep])
      ensures idEntryMap == old(idEntryMap) && idTypeForwardMap == old(idTypeForwardMap) && sections == old(sections)
    {
      AddEntryPoint(ep);
      GrownTrans(caps0, exts0, valid0, old(capabilities), old(extensions), old(isValid),
                 capabilities, extensions, isValid,
                 AllEntryPointCapabilities(done), AllEntryPointExtensions(done),
                 EntryPointCapabilities(ep), EntryPointExtensions(ep), autoAddExtensions);
      EntryPointsAppend(set0, vec0, done, ep);
    }

    /** The records of one more entry point. */
    lemma EntryPointsAppend(set0: map<ExecModel, set<Id>>, vec0: seq<EntryPoint>, done: seq<EntryPoint>, ep: EntryPoint)
      ensures InsertTargets(set0, done + [ep]) == InsertTarget(InsertTargets(set0, done), ep.model, ep.target)
      ensures AllEntryPointCapabilities(done + [ep]) == AllEntryPointCapabilities(done) + EntryPointCapabilities(ep)
      ensures AllEntryPointExtensions(done + [ep]) == AllEntryPointExtensions(done) + EntryPointExtensions(ep)
      ensures vec0 + (done + [ep]) == vec0 + done + [ep]
    {
      assert (done + [ep])[..|done|] == done;
    }

    /** The adding half of the loop of `specializeConditionalEntryPoints`:
        each entry point in turn goes through `addEntryPoint`. */
    method AddEntryPoints(eps: seq<EntryPoint>)
      requires forall ep :: ep in eps ==> ep.target != InvalidId
      requires Valid()
      modifies this`idEntryMap, this`idTypeForwardMap, this`sections, this`capabilities, this`extensions, this`isValid, this`entryPointVec, this`entryPointSet
      ensures Valid()
      ensures entryPointVec == old(entryPointVec) + eps
      ensures entryPointSet == InsertTargets(old(entryPointSet), eps)
      ensures idEntryMap == old(idEntryMap) && idTypeForwardMap == old(idTypeForwardMap) && sections == old(sections)
      ensures Grown(old(capabilities), old(extensions), old(isValid), capabilities, extensions, isValid,
                    AllEntryPointCapabilities(eps), AllEntryPointExtensions(eps), autoAddExtensions)
    {
      GrownRefl(capabilities, extensions, isValid, {}, autoAddExtensions);
      assert old(entryPointVec) + [] == old(entryPointVec);
      assert eps[..0] == [];
      var i := 0;
      while i < |eps|
        invariant 0 <= i <= |eps|
        invariant EntryPointsAdded(old(entryPointVec), old(entryPointSet), old(capabilities), old(extensions),
                                   old(isValid), eps[..i])
        invariant idEntryMap == old(idEntryMap) && idTypeForwardMap == old(idTypeForwardMap)
        invariant sections == old(sections)
        invariant Valid()
      {
        assert eps[i] in eps;
        AddNextEntryPoint(old(entryPointVec), old(entryPointSet), old(capabilities), old(extensions), old(isValid),
                          eps[..i], eps[i]);
        Sequences.TakeOneMore(eps, i);
        i := i + 1;
      }
      assert eps[..i] == eps;
    }

    /** `specializeConditionalEntryPoints`: the conditional entry points with
        `condition` are removed, from the vector and from every set, and
        when `keep` holds each becomes a plain entry point, in order. The
        source collects and adds in one loop; the adds do not read the
        conditional entry points, so collecting first is the same. */
    method SpecializeConditionalEntryPoints(condition: Id, keep: bool)
      requires forall c :: c in conditionalEntryPointVec ==> c.entryPoint.target != InvalidId
      requires Valid()
      modifies this`idEntryMap, this`idTypeForwardMap, this`sections, this`capabilities, this`extensions, this`isValid, this`entryPointVec, this`entryPointSet,
               this`conditionalEntryPointVec, this`conditionalEntryPointSet
      ensures Valid()
      ensures conditionalEntryPointVec == Filter(old(conditionalEntryPointVec), HasOtherCondition(condition))
      ensures conditionalEntryPointSet
              == EraseTargets(old(conditionalEntryPointSet),
                              TargetIds(Filter(old(conditionalEntryPointVec), HasCondition(condition))))
      ensures idEntryMap == old(idEntryMap) && idTypeForwardMap == old(idTypeForwardMap) && sections == old(sections)
      ensures keep ==>
                var eps := EntryPointsOf(Filter(old(conditionalEntryPointVec), HasCondition(condition)));
                && entryPointVec == old(entryPointVec) + eps
                && entryPointSet == InsertTargets(old(entryPointSet), eps)
                && Grown(old(capabilities), old(extensions), old(isValid), capabilities, extensions, isValid,
                         AllEntryPointCapabilities(eps), AllEntryPointExtensions(eps), autoAddExtensions)
      ensures !keep ==>
                && entryPointVec == old(entryPointVec) && entryPointSet == old(entryPointSet)
                && capabilities == old(capabilities) && extensions == old(extensions) && isValid == old(isValid)
    {
      var toRemove := Filter(conditionalEntryPointVec, HasCondition(condition));
      conditionalEntryPointVec := Filter(conditionalEntryPointVec, HasOtherCondition(condition));
      conditionalEntryPointSet := EraseTargets(conditionalEntryPointSet, TargetIds(toRemove));
      if keep {
        AddEntryPoints(EntryPointsOf(toRemove));
      }
    }

    // ---------------------------------------------------------------------
    // Names, lines and erasure

    /** `setName`: an entity with a non-empty name is recorded as named, one
        with an empty name no longer is; an entry without id is not
        recorded. The name text itself is kept by the entry. */
    method SetName(e: Entry, name: string)
      modifies this`namedId
      ensures !e.Entity? ==> namedId == old(namedId)
      ensures e.Entity? && name != "" ==> namedId == old(namedId) + {e.id}
      ensures e.Entity? && name == "" ==> namedId == old(namedId) - {e.id}
    {
      if !e.Entity? {
        return;
      }
      if name != "" {
        namedId := namedId + {e.id};
      } else {
        namedId := namedId - {e.id};
      }
    }

    /** `addLine`: the entry gets the current line record, which is
        replaced by a new one unless it already has this file, line and
        column. */
    method AddLine(fileId: Id, line: Word, column: Word) returns (r: Line)
      modifies this`currentLine, this`linesCreated
      ensures r == Line(fileId, line, column) && currentLine == Some(r)
      ensures linesCreated == old(linesCreated) + (if old(currentLine) == Some(r) then 0 else 1)
    {
      r := Line(fileId, line, column);
      if currentLine != Some(r) {
        currentLine := Some(r);
        linesCreated := linesCreated + 1;
      }
    }

    /** `eraseReferencesOfInst`: for an entity, its name, the member names
        and decorations that target it, and, for a function, its entry
        points are dropped; anything else is left alone and refused. */
    method EraseReferencesOfInst(id: Id) returns (r: bool)
      requires id != InvalidId
      modifies this`namedId, this`sections, this`decorateVec, this`entryPointVec
      ensures r <==> id in idEntryMap && idEntryMap[id].Entity?
      ensures !r ==> namedId == old(namedId) && sections == old(sections) && decorateVec == old(decorateVec)
                     && entryPointVec == old(entryPointVec)
      ensures r ==> && namedId == old(namedId) - {id}
                    && sections == old(sections).(memberNames := Filter(old(sections).memberNames, NotNaming(id)))
                    && decorateVec == Filter(old(decorateVec), NotDecorating(id))
                    && entryPointVec == if OpCodeOf(idEntryMap[id]) == OpFunction
                                        then Filter(old(entryPointVec), NotEntering(id))
                                        else old(entryPointVec)
      ensures r ==> id !in namedId && (forall m :: m in sections.memberNames ==> m.structId != id)
                    && (forall d :: d in decorateVec ==> d.target != id)
      ensures r && OpCodeOf(idEntryMap[id]) == OpFunction ==> forall ep :: ep in entryPointVec ==> ep.target != id
    {
      var entry := GetEntry(id);
      if entry.None? || !entry.value.Entity? {
        return false;
      }
      namedId := namedId - {id};
      sections := sections.(memberNames := Filter(sections.memberNames, NotNaming(id)));
      decorateVec := Filter(decorateVec, NotDecorating(id));
      if OpCodeOf(entry.value) == OpFunction {
        entryPointVec := Filter(entryPointVec, NotEntering(id));
      }
      return true;
    }

    /** `eraseValue`: a type, variable, constant or inline assembly value
        is dropped from its vector and from the id table; any other value is
        refused and nothing changes. */
    method EraseValue(id: Id) returns (r: bool)
      requires Valid()
      requires id in idEntryMap && idEntryMap[id].Entity?
      modifies this`idEntryMap, this`sections
      ensures !InternsId(interned, id) ==> Valid()
      ensures r <==> ErasableSection(old(idEntryMap)[id].opCode) != NoSection
      ensures r ==> idEntryMap == old(idEntryMap) - {id}
                    && sections == EraseFromSection(old(sections), ErasableSection(old(idEntryMap)[id].opCode), id)
      ensures !r ==> idEntryMap == old(idEntryMap) && sections == old(sections)
    {
      var section := ErasableSection(idEntryMap[id].opCode);
      if section == NoSection {
        return false;
      }
      if !InternsId(interned, id) {
        InternedByAway(idEntryMap, interned, id, idEntryMap[id]);
      }
      sections := EraseFromSection(sections, section, id);
      idEntryMap := idEntryMap - {id};
      return true;
    }

    // ---------------------------------------------------------------------
    // Decorations and member names

    /** `addDecorate`: the decoration is added, kept in the decoration
        vector unless a group owns it, and its capabilities are declared
        even when capabilities are not added automatically. */
    method AddDecorate(d: Decoration)
      requires d.target in idEntryMap
      requires Valid()
      modifies this`idEntryMap, this`idTypeForwardMap, this`sections, this`capabilities, this`extensions, this`isValid, this`decorateVec
      ensures Valid()
      ensures decorateVec == old(decorateVec) + (if d.owner.None? then [d] else [])
      ensures idEntryMap == old(idEntryMap) && idTypeForwardMap == old(idTypeForwardMap) && sections == old(sections)
      ensures Grown(old(capabilities), old(extensions), old(isValid), capabilities, extensions, isValid,
                    EntryCapabilities(DecorationEntry(d))
                    + ClosureAll(impliedCapabilities, requiredCapabilities(DecorationEntry(d))),
                    OptionSet(requiredExtension(DecorationEntry(d))), autoAddExtensions)
    {
      if d.owner.None? {
        decorateVec := decorateVec + [d];
      }
      AddWithCapabilities(DecorationEntry(d), requiredCapabilities(DecorationEntry(d)));
    }

    /** `addDecorationGroup`: a group under the next id takes every
        decoration collected so far, which leaves none collected. */
    method AddDecorationGroup() returns (id: Id)
      requires Valid() && nextId < InvalidId
      modifies this`nextId, this`idEntryMap, this`idTypeForwardMap, this`sections, this`capabilities, this`extensions, this`isValid, this`decorateVec, this`decGroupVec
      ensures id == old(nextId) && nextId == id + 1
      ensures decGroupVec == old(decGroupVec) + [DecorationGroup(id, old(decorateVec))]
      ensures decorateVec == []
      ensures EntityAdded(Entity(OpDecorationGroup, id, [], false))
      ensures Valid()
    {
      id := GetId(InvalidId, 1);
      decGroupVec := decGroupVec + [DecorationGroup(id, decorateVec)];
      decorateVec := [];
      var _ := AddEntry(Entity(OpDecorationGroup, id, [], false));
    }

    /** `addMemberName`: recorded in the member name vector. */
    method AddMemberName(structId: Id, member: nat, name: string)
      requires Valid()
      modifies this`idEntryMap, this`idTypeForwardMap, this`sections, this`capabilities, this`extensions, this`isValid
      ensures Valid()
      ensures sections == old(sections).(memberNames := old(sections).memberNames + [MemberName(structId, member, name)])
      ensures idEntryMap == old(idEntryMap) && idTypeForwardMap == old(idTypeForwardMap)
      ensures RequirementsAdded(MemberNameEntry(MemberName(structId, member, name)),
                                old(capabilities), old(extensions), old(isValid))
    {
      var _ := AddEntry(MemberNameEntry(MemberName(structId, member, name)));
    }

    /** `addConditionalCapabilities`: each capability is recorded with the
        condition. */
    method AddConditionalCapabilities(condition: Id, cs: seq<Cap>)
      requires autoAddExtensions ==> forall c :: c in cs ==> (condition, c) in conditionalCapabilities
      modifies this`conditionalCapabilities
      ensures conditionalCapabilities == old(conditionalCapabilities) + set c | c in cs :: (condition, c)
    {
      var i := 0;
      while i < |cs|
        invariant 0 <= i <= |cs|
        invariant conditionalCapabilities == old(conditionalCapabilities) + set c | c in cs[..i] :: (condition, c)
      {
        assert cs[..i + 1] == cs[..i] + [cs[i]];
        AddConditionalCapability(condition, cs[i]);
        i := i + 1;
      }
      assert cs[..i] == cs;
    }

    // ---------------------------------------------------------------------
    // Composite constants

    /** Whether a composite of `n` elements is split: it does not fit one
        instruction and the options allow SPV_INTEL_long_composites. */
    predicate SplitsComposite(n: nat) {
      n > MaxCompositeElements && LongCompositesExtension in allowedExtensions
    }

    function ContinuedCapabilities(slices: seq<seq<Id>>, spec: bool): set<Cap>
      reads this`autoAddCapability
    {
      if slices == [] then {}
      else ContinuedCapabilities(slices[..|slices| - 1], spec) + EntryCapabilities(ContinuedEntry(slices[|slices| - 1], spec))
    }

    function ContinuedExtensions(slices: seq<seq<Id>>, spec: bool): set<string> {
      if slices == [] then {}
      else ContinuedExtensions(slices[..|slices| - 1], spec) + OptionSet(requiredExtension(ContinuedEntry(slices[|slices| - 1], spec)))
    }

    /** The continued instructions `done` went through `add` in order, from
        the given capabilities, extensions and validity. */
    ghost predicate ContinuedAdded(caps0: set<Cap>, exts0: set<string>, valid0: bool, done: seq<seq<Id>>, spec: bool)
      reads this`capabilities, this`extensions, this`isValid, this`autoAddCapability, this`autoAddExtensions
    {
      Grown(caps0, exts0, valid0, capabilities, extensions, isValid,
            ContinuedCapabilities(done, spec), ContinuedExtensions(done, spec), autoAddExtensions)
    }

    /** `addCompositeConstantContinuedINTEL` (or its spec constant form) for
        one slice. */
    method AddContinued(ghost caps0: set<Cap>, ghost exts0: set<string>, ghost valid0: bool,
                        ghost done: seq<seq<Id>>, slice: seq<Id>, spec: bool)
      requires ContinuedAdded(caps0, exts0, valid0, done, spec)
      modifies this`idEntryMap, this`idTypeForwardMap, this`sections, this`capabilities, this`extensions, this`isValid
      ensures ContinuedAdded(caps0, exts0, valid0, done + [slice], spec)
      ensures idEntryMap == old(idEntryMap) && idTypeForwardMap == old(idTypeForwardMap) && sections == old(sections)
    {
      var _ := AddEntry(ContinuedEntry(slice, spec));
      GrownTrans(caps0, exts0, valid0, old(capabilities), old(extensions), old(isValid),
                 capabilities, extensions, isValid,
                 ContinuedCapabilities(done, spec), ContinuedExtensions(done, spec),
                 EntryCapabilities(ContinuedEntry(slice, spec)), OptionSet(requiredExtension(ContinuedEntry(slice, spec))),
                 autoAddExtensions);
      assert (done + [slice])[..|done|] == done;
    }

    /** The loop of `addCompositeConstant` after the head: the remaining
        elements go out in slices of at most `MaxCompositeElements`. */
    method AddContinuedSlices(elements: seq<Id>, spec: bool) returns (continued: seq<seq<Id>>)
      requires |elements| > MaxCompositeElements
      modifies this`idEntryMap, this`idTypeForwardMap, this`sections, this`capabilities, this`extensions, this`isValid
      ensures continued == Chunks(elements[MaxCompositeElements..], MaxCompositeElements)
      ensures ContinuedAdded(old(capabilities), old(extensions), old(isValid), continued, spec)
      ensures idEntryMap == old(idEntryMap) && idTypeForwardMap == old(idTypeForwardMap) && sections == old(sections)
    {
      GrownRefl(capabilities, extensions, isValid, {}, autoAddExtensions);
      continued := [];
      var start := MaxCompositeElements;
      while start < |elements|
        invariant MaxCompositeElements <= start <= |elements|
        invariant continued + RemainingChunks(elements, start) == RemainingChunks(elements, MaxCompositeElements)
        invariant ContinuedAdded(old(capabilities), old(extensions), old(isValid), continued, spec)
        invariant idEntryMap == old(idEntryMap) && idTypeForwardMap == old(idTypeForwardMap)
        invariant sections == old(sections)
        decreases |elements| - start
      {
        var end := if |elements| - start > MaxCompositeElements then start + MaxCompositeElements else |elements|;
        var slice := elements[start..end];
        AddContinued(old(capabilities), old(extensions), old(isValid), continued, slice, spec);
        ChunksStep(elements, continued, start, end);
        continued := continued + [slice];
        start := end;
      }
      assert continued + [] == continued;
    }

    /** `addCompositeConstant` and `addSpecConstantComposite`: a composite
        under the next id; when it is split, that composite holds the first
        `MaxCompositeElements` elements and the rest follow in continued
        instructions, which are returned. */
    method AddCompositeConstant(ty: Id, elements: seq<Id>, spec: bool) returns (id: Id, continued: seq<seq<Id>>)
      requires Valid() && nextId < InvalidId
      modifies this`nextId, this`idEntryMap, this`idTypeForwardMap, this`sections, this`capabilities, this`extensions, this`isValid
      ensures id == old(nextId) && nextId == id + 1 && Valid()
      ensures !SplitsComposite(|elements|) ==> continued == [] && EntityAdded(CompositeEntry(id, ty, elements, spec))
      ensures SplitsComposite(|elements|) ==>
                var head := CompositeEntry(id, ty, elements[..MaxCompositeElements], spec);
                && continued == Chunks(elements[MaxCompositeElements..], MaxCompositeElements)
                && idEntryMap == old(idEntryMap)[id := head]
                && idTypeForwardMap == old(idTypeForwardMap)
                && sections == Layout(old(sections), head)
                && Grown(old(capabilities), old(extensions), old(isValid), capabilities, extensions, isValid,
                         EntryCapabilities(head) + ContinuedCapabilities(continued, spec),
                         OptionSet(requiredExtension(head)) + ContinuedExtensions(continued, spec),
                         autoAddExtensions)
      decreases |elements|
    {
      if !SplitsComposite(|elements|) {
        id := GetId(InvalidId, 1);
        var _ := AddEntry(CompositeEntry(id, ty, elements, spec));
        return id, [];
      }
      var headContinued;
      id, headContinued := AddCompositeConstant(ty, elements[..MaxCompositeElements], spec);
      ghost var caps1, exts1, valid1 := capabilities, extensions, isValid;
      continued := AddContinuedSlices(elements, spec);
      ghost var head := CompositeEntry(id, ty, elements[..MaxCompositeElements], spec);
      GrownTrans(old(capabilities), old(extensions), old(isValid), caps1, exts1, valid1,
                 capabilities, extensions, isValid,
                 EntryCapabilities(head), OptionSet(requiredExtension(head)),
                 ContinuedCapabilities(continued, spec), ContinuedExtensions(continued, spec), autoAddExtensions);
    }

    // ---------------------------------------------------------------------
    // The binary form

    /** The header `operator<<` writes: the version, the generator word, the
        id bound and the schema. A module whose version the options allow
        reads it back unchanged. */
    function HeaderWords(): (ws: seq<Word>)
      reads this`spirvVersion, this`generatorId, this`generatorVer, this`nextId, this`instSchema, this`maxVersion
      requires nextId < 0x1_0000_0000
      ensures ws == EncodeHeader(Header(spirvVersion, generatorId, generatorVer, nextId, instSchema))
      ensures IsVersionKnown(spirvVersion) && spirvVersion <= maxVersion && instSchema == DefaultSchema
              ==> DecodeHeader(ws, maxVersion) == Success(Header(spirvVersion, generatorId, generatorVer, nextId, instSchema))
    {
      var h := Header(spirvVersion, generatorId, generatorVer, nextId, instSchema);
      if IsVersionKnown(spirvVersion) && spirvVersion <= maxVersion && instSchema == DefaultSchema then
        HeaderRoundTrip(h, [], maxVersion);
        assert EncodeHeader(h) + [] == EncodeHeader(h);
        EncodeHeader(h)
      else
        EncodeHeader(h)
    }

    /** `parseSPIRV`: capabilities and extensions are no longer added
        automatically; a header the reader refuses makes the module invalid
        and nothing more is read; otherwise the header fields are taken over
        (the bound becomes the next id) and the instruction loop runs while
        the module is valid. The instructions it hands over are returned;
        building entries from them is not part of this model. */
    method ParseSPIRV(words: seq<Word>, implemented: set<OpCode>) returns (instructions: seq<Instruction>)
      requires Valid()
      modifies this`autoAddCapability, this`autoAddExtensions, this`isValid, this`spirvVersion,
               this`generatorId, this`generatorVer, this`nextId, this`instSchema
      ensures !autoAddCapability && !autoAddExtensions
      ensures DecodeHeader(words, maxVersion).Failure? || old(idEntryMap) == map[] ==> Valid()
      ensures DecodeHeader(words, maxVersion).Failure? ==>
                && !isValid && instructions == []
                && spirvVersion == old(spirvVersion) && nextId == old(nextId)
                && generatorId == old(generatorId) && generatorVer == old(generatorVer) && instSchema == old(instSchema)
      ensures DecodeHeader(words, maxVersion).Success? ==>
                && var h := DecodeHeader(words, maxVersion).value;
                && spirvVersion == h.version && generatorId == h.generatorId && generatorVer == h.generatorVer
                && nextId == h.bound && instSchema == h.schema
                && (old(isValid) ==> ReadResult(instructions, isValid)
                                     == ReadInstructions(words[HeaderWordCount..], implemented))
                && (!old(isValid) ==> instructions == [] && !isValid)
    {
      autoAddCapability := false;
      autoAddExtensions := false;
      var header := DecodeHeader(words, maxVersion);
      if header.Failure? {
        isValid := false;
        return [];
      }
      var h := header.value;
      spirvVersion := h.version;
      generatorId := h.generatorId;
      generatorVer := h.generatorVer;
      nextId := h.bound;
      instSchema := h.schema;
      if !isValid {
        return [];
      }
      var valid;
      instructions, valid := ReadLoop(words[HeaderWordCount..], implemented);
      isValid := valid;
    }
  }
}
