/** The SPIR-V binary form as the translator's module reads and writes it:
    the five-word header and the framing of instructions into words
    (sections 2.3 "Physical Layout of a SPIR-V Module and Instruction" and
    3.1 "Magic Number" of the Khronos SPIR-V specification). What each
    instruction's operand words mean is decided by the entity classes and is
    not part of this model: an instruction here is its opcode and its operand
    words. */
module BinaryFormat {
  import opened Wrappers
  import opened OpCodes

  /** A 32-bit word, and a 16-bit half word. */
  type Word = x: nat | x < 0x1_0000_0000
  type Half = x: nat | x < 0x1_0000

  const MagicNumber: Word := 0x0723_0203
  /** The only instruction schema the translator accepts. */
  const DefaultSchema: Word := 0
  /** The version range the translator knows: SPIR-V 1.0 to SPIR-V 1.6. */
  const MinimumVersion: Word := 0x0001_0000
  const MaximumVersion: Word := 0x0001_0600
  const HeaderWordCount := 5
  /** The largest word count the 16-bit word-count field can carry. */
  const MaxWordCount := 0xFFFF

  predicate IsVersionKnown(v: Word) {
    MinimumVersion <= v <= MaximumVersion
  }

  /** The header fields of a module. */
  datatype Header = Header(version: Word, generatorId: Half, generatorVer: Half,
                           bound: Word, schema: Word)

  /** The reasons the header is refused, in the order they are tested. */
  datatype HeaderError =
    | EmptyInput          // fewer than five words could be read
    | InvalidMagic
    | UnknownVersion
    | VersionNotAllowed   // above the maximum version the options allow
    | UnsupportedSchema

  /** A word made of two half words, `high` in the upper 16 bits: word 2 of
      the header (the generator id and its version) and word 0 of an
      instruction (the word count and the opcode). */
  function JoinHalves(high: Half, low: Half): (w: Word)
    ensures w / 0x1_0000 == high && w % 0x1_0000 == low
  {
    high * 0x1_0000 + low
  }

  /** Every word is the join of its halves. */
  lemma HalvesSplit(w: Word)
    ensures w / 0x1_0000 < 0x1_0000
    ensures JoinHalves(w / 0x1_0000, w % 0x1_0000) == w
  {
  }

  function EncodeHeader(h: Header): (ws: seq<Word>)
    ensures |ws| == HeaderWordCount && ws[0] == MagicNumber && ws[3] == h.bound
  {
    [MagicNumber, h.version, JoinHalves(h.generatorId, h.generatorVer), h.bound, h.schema]
  }

  /** The header checks of the binary reader; `maxVersion` is the highest
      version the translator options allow. */
  function DecodeHeader(words: seq<Word>, maxVersion: nat): (r: Result<Header, HeaderError>)
    ensures r.Success? ==> |words| >= HeaderWordCount && words[0] == MagicNumber
    ensures r.Success? ==> IsVersionKnown(r.value.version) && r.value.version <= maxVersion
    ensures r.Success? ==> r.value.schema == DefaultSchema && r.value.bound == words[3]
    ensures r.Success? ==> EncodeHeader(r.value) == words[..HeaderWordCount]
  {
    if |words| < HeaderWordCount then Failure(EmptyInput)
    else if words[0] != MagicNumber then Failure(InvalidMagic)
    else if !IsVersionKnown(words[1]) then Failure(UnknownVersion)
    else if words[1] > maxVersion then Failure(VersionNotAllowed)
    else if words[4] != DefaultSchema then Failure(UnsupportedSchema)
    else
      HalvesSplit(words[2]);
      Success(Header(words[1], words[2] / 0x1_0000, words[2] % 0x1_0000, words[3], words[4]))
  }

  /** A header the writer produces is read back unchanged, whatever follows it. */
  lemma HeaderRoundTrip(h: Header, rest: seq<Word>, maxVersion: nat)
    requires IsVersionKnown(h.version) && h.version <= maxVersion
    requires h.schema == DefaultSchema
    ensures DecodeHeader(EncodeHeader(h) + rest, maxVersion) == Success(h)
  {
    var ws := EncodeHeader(h) + rest;
    assert ws[2] == JoinHalves(h.generatorId, h.generatorVer);
  }

  /** Each refusal, and which one wins when several apply. */
  lemma HeaderErrors(words: seq<Word>, maxVersion: nat)
    ensures |words| < HeaderWordCount ==> DecodeHeader(words, maxVersion) == Failure(EmptyInput)
    ensures |words| >= HeaderWordCount && words[0] != MagicNumber
            ==> DecodeHeader(words, maxVersion) == Failure(InvalidMagic)
    ensures |words| >= HeaderWordCount && words[0] == MagicNumber && !IsVersionKnown(words[1])
            ==> DecodeHeader(words, maxVersion) == Failure(UnknownVersion)
    ensures |words| >= HeaderWordCount && words[0] == MagicNumber && IsVersionKnown(words[1])
            && words[1] > maxVersion
            ==> DecodeHeader(words, maxVersion) == Failure(VersionNotAllowed)
    ensures DecodeHeader(words, maxVersion).Success?
            <==> |words| >= HeaderWordCount && words[0] == MagicNumber && IsVersionKnown(words[1])
                 && words[1] <= maxVersion && words[4] == DefaultSchema
  {
  }

  // -----------------------------------------------------------------------
  // Instruction framing

  /** An instruction as the framing sees it: its opcode and operand words. */
  datatype Instruction = Instruction(opCode: OpCode, operands: seq<Word>)

  /** An instruction the writer can frame and the reader does not skip. */
  predicate Framable(i: Instruction) {
    |i.operands| < MaxWordCount && i.opCode != OpNop
  }

  function EncodeInstruction(i: Instruction): (ws: seq<Word>)
    requires Framable(i)
    ensures |ws| == 1 + |i.operands| && ws[1..] == i.operands
    ensures ws[0] / 0x1_0000 == |ws| && ws[0] % 0x1_0000 == i.opCode
  {
    [JoinHalves(1 + |i.operands|, i.opCode)] + i.operands
  }

  function EncodeInstructions(instrs: seq<Instruction>): (ws: seq<Word>)
    requires forall k :: 0 <= k < |instrs| ==> Framable(instrs[k])
    ensures |ws| >= |instrs|
  {
    if instrs == [] then [] else EncodeInstruction(instrs[0]) + EncodeInstructions(instrs[1..])
  }

  /** The outcome of the reader's instruction loop: the instructions handed to
      the module, and whether the module is still valid. */
  datatype ReadResult = ReadResult(instructions: seq<Instruction>, valid: bool)

  /** The reader's loop, stated on the words left after the header. A word
      whose count is 0 or whose opcode is OpNop is dropped on its own. An
      instruction whose opcode is not `implemented` is still handed over, makes
      the module invalid and ends the loop. An instruction cut short by the
      end of the input is handed over with the words that remain. */
  function ReadInstructions(words: seq<Word>, implemented: set<OpCode>): (r: ReadResult)
    ensures |r.instructions| <= |words|
    ensures !r.valid ==> r.instructions != [] && Last(r.instructions).opCode !in implemented
    decreases |words|
  {
    if words == [] then ReadResult([], true)
    else
      var wordCount := words[0] / 0x1_0000;
      var op: OpCode := words[0] % 0x1_0000;
      if wordCount == 0 || op == OpNop then ReadInstructions(words[1..], implemented)
      else if wordCount > |words| then
        ReadResult([Instruction(op, words[1..])], op in implemented)
      else
        var i := Instruction(op, words[1..wordCount]);
        if op !in implemented then ReadResult([i], false)
        else
          var rest := ReadInstructions(words[wordCount..], implemented);
          ReadResult([i] + rest.instructions, rest.valid)
  }

  function Last<T>(s: seq<T>): T
    requires s != []
  {
    s[|s| - 1]
  }

  /** Framing round trip: the reader gives back exactly what the writer
      framed, and the module stays valid. */
  lemma {:induction false} FramingRoundTrip(instrs: seq<Instruction>, implemented: set<OpCode>)
    requires forall k :: 0 <= k < |instrs| ==> Framable(instrs[k]) && instrs[k].opCode in implemented
    ensures ReadInstructions(EncodeInstructions(instrs), implemented) == ReadResult(instrs, true)
  {
    if instrs != [] {
      var head := EncodeInstruction(instrs[0]);
      var tail := EncodeInstructions(instrs[1..]);
      var ws := head + tail;
      assert ws[0] == head[0];
      assert ws[1..|head|] == instrs[0].operands;
      assert ws[|head|..] == tail;
      FramingRoundTrip(instrs[1..], implemented);
      assert [instrs[0]] + instrs[1..] == instrs;
    }
  }

  /** A whole module the writer produces — header, then framed
      instructions — is read back as the same header and instructions, and
      stays valid. */
  lemma ModuleRoundTrip(h: Header, instrs: seq<Instruction>, maxVersion: nat, implemented: set<OpCode>)
    requires IsVersionKnown(h.version) && h.version <= maxVersion && h.schema == DefaultSchema
    requires forall k :: 0 <= k < |instrs| ==> Framable(instrs[k]) && instrs[k].opCode in implemented
    ensures DecodeHeader(EncodeHeader(h) + EncodeInstructions(instrs), maxVersion) == Success(h)
    ensures ReadInstructions((EncodeHeader(h) + EncodeInstructions(instrs))[HeaderWordCount..], implemented)
            == ReadResult(instrs, true)
  {
    HeaderRoundTrip(h, EncodeInstructions(instrs), maxVersion);
    assert (EncodeHeader(h) + EncodeInstructions(instrs))[HeaderWordCount..] == EncodeInstructions(instrs);
    FramingRoundTrip(instrs, implemented);
  }

  /** The reader's loop as a method that consumes the words as a stream. */
  method ReadLoop(words: seq<Word>, implemented: set<OpCode>) returns (instructions: seq<Instruction>, valid: bool)
    ensures ReadResult(instructions, valid) == ReadInstructions(words, implemented)
  {
    instructions := [];
    valid := true;
    var rest := words;
    while rest != []
      invariant valid
      invariant ReadInstructions(words, implemented)
                == ReadResult(instructions + ReadInstructions(rest, implemented).instructions,
                              ReadInstructions(rest, implemented).valid)
      decreases |rest|
    {
      var wordCount := rest[0] / 0x1_0000;
      var op: OpCode := rest[0] % 0x1_0000;
      if wordCount == 0 || op == OpNop {
        rest := rest[1..];
      } else if wordCount > |rest| {
        instructions := instructions + [Instruction(op, rest[1..])];
        valid := op in implemented;
        return;
      } else {
        var i := Instruction(op, rest[1..wordCount]);
        instructions := instructions + [i];
        if op !in implemented {
          valid := false;
          return;
        }
        rest := rest[wordCount..];
      }
    }
    assert instructions + [] == instructions;
  }
}
