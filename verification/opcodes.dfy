/** Opcode classification of the SPIR-V translator's in-memory module.
    Opcode numbers are those of the instruction tables of the Khronos SPIR-V
    specification (as published in spirv.hpp). The translator-internal opcodes
    and the function-variant specialisation constants are given placeholder
    numbers that lie outside every range used below; only their distinctness
    matters to the predicates. */
module OpCodes {

  /** An opcode occupies the low 16 bits of an instruction's first word. */
  type OpCode = x: nat | x < 0x1_0000

  // Debug, annotation and module-level instructions
  const OpNop: OpCode := 0
  const OpUndef: OpCode := 1
  const OpName: OpCode := 5
  const OpMemberName: OpCode := 6
  const OpString: OpCode := 7
  const OpLine: OpCode := 8
  const OpExtInst: OpCode := 12
  const OpEntryPoint: OpCode := 15
  const OpCapability: OpCode := 17

  // Types
  const OpTypeVoid: OpCode := 19
  const OpTypeBool: OpCode := 20
  const OpTypeInt: OpCode := 21
  const OpTypeFloat: OpCode := 22
  const OpTypeSampler: OpCode := 26
  const OpTypeStruct: OpCode := 30
  const OpTypePointer: OpCode := 32
  const OpTypeFunction: OpCode := 33
  const OpTypeEvent: OpCode := 34
  const OpTypeQueue: OpCode := 37
  const OpTypePipe: OpCode := 38
  const OpTypeForwardPointer: OpCode := 39

  // Constants
  const OpConstantTrue: OpCode := 41
  const OpConstant: OpCode := 43
  const OpConstantComposite: OpCode := 44
  const OpConstantNull: OpCode := 46
  const OpSpecConstantTrue: OpCode := 48
  const OpSpecConstantComposite: OpCode := 51
  const OpSpecConstantOp: OpCode := 52

  const OpFunction: OpCode := 54
  const OpVariable: OpCode := 59
  const OpAccessChain: OpCode := 65
  const OpInBoundsAccessChain: OpCode := 66
  const OpDecorate: OpCode := 71
  const OpDecorationGroup: OpCode := 73

  // Conversions
  const OpConvertFToU: OpCode := 109
  const OpConvertUToF: OpCode := 112
  const OpUConvert: OpCode := 113
  const OpConvertPtrToU: OpCode := 117
  const OpSatConvertSToU: OpCode := 118
  const OpSatConvertUToS: OpCode := 119
  const OpBitcast: OpCode := 124

  // Arithmetic, relational, logical and bit instructions
  const OpSNegate: OpCode := 126
  const OpFNegate: OpCode := 127
  const OpIAdd: OpCode := 128
  const OpFMod: OpCode := 141
  const OpDot: OpCode := 148
  const OpIAddCarry: OpCode := 149
  const OpISubBorrow: OpCode := 150
  const OpUMulExtended: OpCode := 151
  const OpSMulExtended: OpCode := 152
  const OpAny: OpCode := 154
  const OpSignBitSet: OpCode := 160
  const OpLessOrGreater: OpCode := 161
  const OpLogicalEqual: OpCode := 164
  const OpLogicalNotEqual: OpCode := 165
  const OpLogicalNot: OpCode := 168
  const OpIEqual: OpCode := 170
  const OpFUnordGreaterThanEqual: OpCode := 191
  const OpShiftRightLogical: OpCode := 194
  const OpShiftLeftLogical: OpCode := 196
  const OpBitwiseOr: OpCode := 197
  const OpBitwiseAnd: OpCode := 199
  const OpNot: OpCode := 200

  // Atomics
  const OpAtomicLoad: OpCode := 227
  const OpAtomicXor: OpCode := 242

  // Group, pipe and event instructions
  const OpGroupWaitEvents: OpCode := 260
  const OpGroupAll: OpCode := 261
  const OpGroupIAdd: OpCode := 264
  const OpGroupSMax: OpCode := 271
  const OpReadPipe: OpCode := 274
  const OpGroupReserveReadPipePackets: OpCode := 285
  const OpGroupCommitWritePipe: OpCode := 288
  const OpRetainEvent: OpCode := 297
  const OpCaptureEventProfilingInfo: OpCode := 302
  const OpAtomicFlagTestAndSet: OpCode := 318
  const OpAtomicFlagClear: OpCode := 319
  const OpTypePipeStorage: OpCode := 322
  const OpConstantPipeStorage: OpCode := 323
  const OpGroupNonUniformElect: OpCode := 333
  const OpGroupNonUniformBallotBitCount: OpCode := 342
  const OpGroupNonUniformIAdd: OpCode := 349
  const OpGroupNonUniformLogicalAnd: OpCode := 362
  const OpGroupNonUniformLogicalOr: OpCode := 363
  const OpGroupNonUniformLogicalXor: OpCode := 364
  const OpGroupNonUniformQuadSwap: OpCode := 366
  const OpPtrEqual: OpCode := 401
  const OpPtrDiff: OpCode := 403

  // Extension instructions
  const OpTypeUntypedPointerKHR: OpCode := 4417
  const OpUntypedVariableKHR: OpCode := 4418
  const OpUntypedAccessChainKHR: OpCode := 4419
  const OpUntypedInBoundsAccessChainKHR: OpCode := 4420
  const OpUntypedPtrAccessChainKHR: OpCode := 4423
  const OpUntypedInBoundsPtrAccessChainKHR: OpCode := 4424
  const OpGroupNonUniformRotateKHR: OpCode := 4431
  const OpTypeCooperativeMatrixKHR: OpCode := 4456
  const OpSubgroupShuffleINTEL: OpCode := 5571
  const OpSubgroupImageBlockWriteINTEL: OpCode := 5578
  const OpSubgroupImageMediaBlockReadINTEL: OpCode := 5580
  const OpSubgroupImageMediaBlockWriteINTEL: OpCode := 5581
  const OpConstantFunctionPointerINTEL: OpCode := 5600
  const OpAsmTargetINTEL: OpCode := 5609
  const OpAsmINTEL: OpCode := 5610
  const OpAliasDomainDeclINTEL: OpCode := 5911
  const OpAliasScopeDeclINTEL: OpCode := 5912
  const OpAliasScopeListDeclINTEL: OpCode := 5913
  const OpAtomicFMinEXT: OpCode := 5614
  const OpAtomicFMaxEXT: OpCode := 5615
  const OpTypeVmeImageINTEL: OpCode := 5700
  const OpTypeAvcImePayloadINTEL: OpCode := 5701
  const OpTypeAvcSicResultINTEL: OpCode := 5712
  const OpSubgroupAvcMceGetDefaultInterBaseMultiReferencePenaltyINTEL: OpCode := 5713
  const OpSubgroupAvcImeEvaluateWithSingleReferenceINTEL: OpCode := 5747
  const OpSubgroupAvcImeEvaluateWithDualReferenceStreaminoutINTEL: OpCode := 5752
  const OpSubgroupAvcRefEvaluateWithSingleReferenceINTEL: OpCode := 5786
  const OpSubgroupAvcRefEvaluateWithMultiReferenceInterlacedINTEL: OpCode := 5789
  const OpSubgroupAvcSicEvaluateIpeINTEL: OpCode := 5803
  const OpSubgroupAvcSicEvaluateWithMultiReferenceInterlacedINTEL: OpCode := 5806
  const OpSubgroupAvcSicGetInterRawSadsINTEL: OpCode := 5816
  const OpPtrCastToCrossWorkgroupINTEL: OpCode := 5934
  const OpCrossWorkgroupCastToPtrINTEL: OpCode := 5938
  const OpReadPipeBlockingINTEL: OpCode := 5946
  const OpWritePipeBlockingINTEL: OpCode := 5947
  const OpAtomicFAddEXT: OpCode := 6035
  const OpTypeBufferSurfaceINTEL: OpCode := 6086
  const OpConstantCompositeContinuedINTEL: OpCode := 6091
  const OpSpecConstantCompositeContinuedINTEL: OpCode := 6092
  const OpControlBarrierArriveINTEL: OpCode := 6142
  const OpControlBarrierWaitINTEL: OpCode := 6143
  const OpGroupIMulKHR: OpCode := 6401
  const OpGroupLogicalAndKHR: OpCode := 6406
  const OpGroupLogicalOrKHR: OpCode := 6407
  const OpGroupLogicalXorKHR: OpCode := 6408

  // Translator-internal opcodes and function-variant specialisation
  // constants: placeholder numbers, distinct and outside every range above.
  const OpForward: OpCode := 0xFF00
  const OpTypeTokenINTEL: OpCode := 0xFF01
  const OpTypeJointMatrixINTEL: OpCode := 0xFF02
  const OpTypeJointMatrixINTELv2: OpCode := 0xFF03
  const OpTypeTaskSequenceINTEL: OpCode := 0xFF04
  const OpSpecConstantArchitectureINTEL: OpCode := 0xFF05
  const OpSpecConstantTargetINTEL: OpCode := 0xFF06
  const OpSpecConstantCapabilitiesINTEL: OpCode := 0xFF07
  const OpConditionalEntryPointINTEL: OpCode := 0xFF08

  predicate IsFPAtomicOpCode(op: OpCode) {
    op == OpAtomicFAddEXT || op == OpAtomicFMinEXT || op == OpAtomicFMaxEXT
  }

  predicate IsAtomicOpCode(op: OpCode) {
    (OpAtomicLoad <= op <= OpAtomicXor)
    || op == OpAtomicFlagTestAndSet || op == OpAtomicFlagClear
    || IsFPAtomicOpCode(op)
  }

  predicate IsAtomicOpCodeUntypedPtrSupported(op: OpCode) {
    (OpAtomicLoad <= op <= OpAtomicXor) || IsFPAtomicOpCode(op)
  }

  predicate IsBinaryOpCode(op: OpCode) {
    (OpIAdd <= op <= OpFMod)
    || op == OpDot || op == OpIAddCarry || op == OpISubBorrow
    || op == OpUMulExtended || op == OpSMulExtended
  }

  predicate IsBinaryPtrOpCode(op: OpCode) { OpPtrEqual <= op <= OpPtrDiff }

  predicate IsShiftOpCode(op: OpCode) { OpShiftRightLogical <= op <= OpShiftLeftLogical }

  predicate IsLogicalOpCode(op: OpCode) { OpLogicalEqual <= op <= OpLogicalNot }

  predicate IsUnaryPredicateOpCode(op: OpCode) { OpAny <= op <= OpSignBitSet }

  predicate IsBitwiseOpCode(op: OpCode) { OpBitwiseOr <= op <= OpBitwiseAnd }

  predicate IsBinaryShiftLogicalBitwiseOpCode(op: OpCode) {
    (OpShiftRightLogical <= op <= OpBitwiseAnd) || IsBinaryOpCode(op)
  }

  predicate IsCmpOpCode(op: OpCode) {
    (OpIEqual <= op <= OpFUnordGreaterThanEqual)
    || (OpLessOrGreater <= op <= OpLogicalNotEqual)
  }

  predicate IsCvtOpCode(op: OpCode) {
    (OpConvertFToU <= op <= OpBitcast)
    || op == OpSatConvertSToU || op == OpSatConvertUToS
    || op == OpPtrCastToCrossWorkgroupINTEL || op == OpCrossWorkgroupCastToPtrINTEL
  }

  predicate IsCvtToUnsignedOpCode(op: OpCode) {
    op == OpConvertFToU || op == OpUConvert || op == OpSatConvertSToU
  }

  predicate IsCvtFromUnsignedOpCode(op: OpCode) {
    op == OpConvertUToF || op == OpUConvert || op == OpSatConvertUToS
  }

  predicate IsSatCvtOpCode(op: OpCode) {
    op == OpSatConvertUToS || op == OpSatConvertSToU
  }

  predicate IsOpaqueGenericTypeOpCode(op: OpCode) {
    (OpTypeEvent <= op <= OpTypeQueue) || op == OpTypeSampler
  }

  predicate IsGenericNegateOpCode(op: OpCode) {
    op == OpSNegate || op == OpFNegate || op == OpNot
  }

  predicate IsAccessChainOpCode(op: OpCode) {
    op == OpAccessChain || op == OpInBoundsAccessChain
  }

  predicate IsUntypedAccessChainOpCode(op: OpCode) {
    op == OpUntypedAccessChainKHR || op == OpUntypedInBoundsAccessChainKHR
    || op == OpUntypedPtrAccessChainKHR || op == OpUntypedInBoundsPtrAccessChainKHR
  }

  predicate HasExecScope(op: OpCode) {
    (OpGroupWaitEvents <= op <= OpGroupSMax)
    || (OpGroupReserveReadPipePackets <= op <= OpGroupCommitWritePipe)
    || op == OpGroupNonUniformRotateKHR
  }

  predicate HasGroupOperation(op: OpCode) {
    (OpGroupIAdd <= op <= OpGroupSMax)
    || op == OpGroupNonUniformBallotBitCount
    || (OpGroupNonUniformIAdd <= op <= OpGroupNonUniformLogicalXor)
    || (OpGroupIMulKHR <= op <= OpGroupLogicalXorKHR)
  }

  predicate IsUniformArithmeticOpCode(op: OpCode) {
    (OpGroupIAdd <= op <= OpGroupSMax) || (OpGroupIMulKHR <= op <= OpGroupLogicalXorKHR)
  }

  predicate IsNonUniformArithmeticOpCode(op: OpCode) {
    OpGroupNonUniformIAdd <= op <= OpGroupNonUniformLogicalXor
  }

  predicate IsGroupLogicalOpCode(op: OpCode) {
    op == OpGroupNonUniformLogicalAnd || op == OpGroupNonUniformLogicalOr
    || op == OpGroupNonUniformLogicalXor || op == OpGroupLogicalAndKHR
    || op == OpGroupLogicalOrKHR || op == OpGroupLogicalXorKHR
  }

  predicate IsGroupOpCode(op: OpCode) {
    (OpGroupAll <= op <= OpGroupSMax) || (OpGroupIMulKHR <= op <= OpGroupLogicalXorKHR)
  }

  predicate IsGroupNonUniformOpCode(op: OpCode) {
    (OpGroupNonUniformElect <= op <= OpGroupNonUniformQuadSwap)
    || op == OpGroupNonUniformRotateKHR
  }

  predicate IsMediaBlockINTELOpCode(op: OpCode) {
    op == OpSubgroupImageMediaBlockReadINTEL || op == OpSubgroupImageMediaBlockWriteINTEL
  }

  predicate IsPipeOpCode(op: OpCode) {
    (OpReadPipe <= op <= OpGroupCommitWritePipe)
    || (OpReadPipeBlockingINTEL <= op <= OpWritePipeBlockingINTEL)
  }

  predicate IsSubgroupAvcINTELTypeOpCode(op: OpCode) {
    OpTypeAvcImePayloadINTEL <= op <= OpTypeAvcSicResultINTEL
  }

  predicate IsSubgroupAvcINTELInstructionOpCode(op: OpCode) {
    OpSubgroupAvcMceGetDefaultInterBaseMultiReferencePenaltyINTEL <= op
    <= OpSubgroupAvcSicGetInterRawSadsINTEL
  }

  predicate IsSubgroupAvcINTELEvaluateOpCode(op: OpCode) {
    (OpSubgroupAvcImeEvaluateWithSingleReferenceINTEL <= op
       <= OpSubgroupAvcImeEvaluateWithDualReferenceStreaminoutINTEL)
    || (OpSubgroupAvcRefEvaluateWithSingleReferenceINTEL <= op
          <= OpSubgroupAvcRefEvaluateWithMultiReferenceInterlacedINTEL)
    || (OpSubgroupAvcSicEvaluateIpeINTEL <= op
          <= OpSubgroupAvcSicEvaluateWithMultiReferenceInterlacedINTEL)
  }

  predicate IsVCOpCode(op: OpCode) { op == OpTypeBufferSurfaceINTEL }

  predicate IsTypeOpCode(op: OpCode) {
    (OpTypeVoid <= op <= OpTypePipe) || op == OpTypePipeStorage
    || IsSubgroupAvcINTELTypeOpCode(op) || op == OpTypeVmeImageINTEL
    || IsVCOpCode(op) || op == OpTypeTokenINTEL
    || op == OpTypeJointMatrixINTEL || op == OpTypeJointMatrixINTELv2
    || op == OpTypeCooperativeMatrixKHR || op == OpTypeTaskSequenceINTEL
    || op == OpTypeUntypedPointerKHR
  }

  predicate IsFnVarSpecConstINTEL(op: OpCode) {
    op == OpSpecConstantArchitectureINTEL || op == OpSpecConstantTargetINTEL
    || op == OpSpecConstantCapabilitiesINTEL
  }

  predicate IsSpecConstantOpCode(op: OpCode) {
    (OpSpecConstantTrue <= op <= OpSpecConstantOp) || IsFnVarSpecConstINTEL(op)
  }

  predicate IsConstantOpCode(op: OpCode) {
    (OpConstantTrue <= op <= OpSpecConstantOp) || op == OpUndef
    || op == OpConstantPipeStorage || op == OpConstantFunctionPointerINTEL
    || IsSpecConstantOpCode(op)
  }

  predicate IsModuleScopeAllowedOpCode(op: OpCode) {
    op == OpVariable || op == OpExtInst || IsConstantOpCode(op)
  }

  predicate IsIntelSubgroupOpCode(op: OpCode) {
    OpSubgroupShuffleINTEL <= op <= OpSubgroupImageBlockWriteINTEL
  }

  predicate IsEventOpCode(op: OpCode) { OpRetainEvent <= op <= OpCaptureEventProfilingInfo }

  predicate IsSplitBarrierINTELOpCode(op: OpCode) {
    op == OpControlBarrierArriveINTEL || op == OpControlBarrierWaitINTEL
  }

  /** Pointer types (typed or untyped) are where the topological sort may
      break a cycle with a forward declaration. */
  predicate IsPointerTypeOpCode(op: OpCode) {
    op == OpTypePointer || op == OpTypeUntypedPointerKHR
  }

  // ---------------------------------------------------------------------
  // Containment relations between the classes

  lemma SpecConstantIsConstant(op: OpCode)
    ensures IsSpecConstantOpCode(op) ==> IsConstantOpCode(op)
  {
  }

  lemma ConstantIsModuleScopeAllowed(op: OpCode)
    ensures IsConstantOpCode(op) ==> IsModuleScopeAllowedOpCode(op)
    ensures IsModuleScopeAllowedOpCode(OpVariable) && IsModuleScopeAllowedOpCode(OpExtInst)
    ensures IsModuleScopeAllowedOpCode(op) <==> op == OpVariable || op == OpExtInst || IsConstantOpCode(op)
  {
  }

  lemma AtomicClassesNested(op: OpCode)
    ensures IsFPAtomicOpCode(op) ==> IsAtomicOpCodeUntypedPtrSupported(op)
    ensures IsAtomicOpCodeUntypedPtrSupported(op) ==> IsAtomicOpCode(op)
    ensures IsAtomicOpCode(op) && !IsAtomicOpCodeUntypedPtrSupported(op)
            <==> op == OpAtomicFlagTestAndSet || op == OpAtomicFlagClear
  {
  }

  lemma BinaryShiftBitwiseCovered(op: OpCode)
    ensures IsBinaryOpCode(op) ==> IsBinaryShiftLogicalBitwiseOpCode(op)
    ensures IsShiftOpCode(op) ==> IsBinaryShiftLogicalBitwiseOpCode(op)
    ensures IsBitwiseOpCode(op) ==> IsBinaryShiftLogicalBitwiseOpCode(op)
  {
  }

  lemma ConversionClassesNested(op: OpCode)
    ensures IsSatCvtOpCode(op) ==> IsCvtOpCode(op)
    ensures IsCvtToUnsignedOpCode(op) ==> IsCvtOpCode(op)
    ensures IsCvtFromUnsignedOpCode(op) ==> IsCvtOpCode(op)
    ensures IsCvtToUnsignedOpCode(op) && IsCvtFromUnsignedOpCode(op) <==> op == OpUConvert
  {
  }

  lemma GroupClassesNested(op: OpCode)
    ensures IsUniformArithmeticOpCode(op) ==> HasGroupOperation(op) && IsGroupOpCode(op)
    ensures IsNonUniformArithmeticOpCode(op) ==> HasGroupOperation(op)
    ensures IsGroupLogicalOpCode(op) ==> HasGroupOperation(op)
    ensures IsNonUniformArithmeticOpCode(op) ==> IsGroupNonUniformOpCode(op)
  {
  }

  lemma TypeClassesNested(op: OpCode)
    ensures IsSubgroupAvcINTELTypeOpCode(op) ==> IsTypeOpCode(op)
    ensures IsVCOpCode(op) ==> IsTypeOpCode(op)
    ensures IsOpaqueGenericTypeOpCode(op) ==> IsTypeOpCode(op)
    ensures IsPointerTypeOpCode(op) ==> IsTypeOpCode(op)
    ensures IsTypeOpCode(OpTypeUntypedPointerKHR) && IsTypeOpCode(OpTypeInt)
  {
  }

  /** No opcode is both a type and a constant, so the module's layout, which
      asks "type?" before "constant?", never has to choose. */
  lemma TypesAndConstantsDisjoint(op: OpCode)
    ensures !(IsTypeOpCode(op) && IsConstantOpCode(op))
    ensures !IsTypeOpCode(OpVariable) && !IsConstantOpCode(OpVariable)
    ensures !IsTypeOpCode(OpForward) && !IsConstantOpCode(OpForward)
    ensures !IsTypeOpCode(OpTypeForwardPointer) && !IsConstantOpCode(OpTypeForwardPointer)
  {
  }
}
