/** The option handling of the `llvm-spirv` command-line tool: the names of
    the files it writes when no `-o` is given, the `--spirv-ext` list of
    allowed and disallowed extensions, the integer values of `--spec-const`,
    and the choice of what to do from the mode flags. The files themselves,
    the translations and the module reads are not part of this model. */
module Cli {
  import opened Wrappers
  import opened Strings
  import opened Numbers
  import Sequences

  // -----------------------------------------------------------------------
  // Output names

  /** The extensions of `kExt`, and the one of a regularized module. */
  const SpirvBinaryExt: String := ".spv"
  const SpirvTextExt: String := ".spt"
  const LlvmBinaryExt: String := ".bc"
  const RegularizedExt: String := ".regularized.bc"

  /** The name that stands for the standard input and output. */
  const StdStream: String := "-"

  /** `removeExt`: the name up to its last '.', wherever in the path that
      '.' is; a name without '.' is kept whole. */
  function RemoveExt(fileName: String): (r: String)
    ensures '.' !in fileName ==> r == fileName
    ensures '.' in fileName ==> |r| < |fileName| && r == fileName[..|r|] && fileName[|r|] == '.'
                                && forall j :: |r| < j < |fileName| ==> fileName[j] != '.'
  {
    match FindLastOf(fileName, {'.'})
    case None => fileName
    case Some(pos) => fileName[..pos]
  }

  /** The extension after the last '.' is what goes. */
  lemma RemoveExtOfJoin(stem: String, ext: String)
    requires '.' !in ext
    ensures RemoveExt(stem + "." + ext) == stem
  {
    assert NoneOf(ext, {'.'});
    FindLastOfJoin(stem, '.', ext, {'.'});
    assert (stem + "." + ext)[..|stem|] == stem;
  }

  /** A '.' in a directory name counts too: below such a directory, a file
      name without extension loses the tail of the path from that '.'. */
  lemma RemoveExtInDirectory(dir: String, baseName: String)
    requires '.' in dir && '.' !in "/" + baseName
    ensures RemoveExt(dir + "/" + baseName) == RemoveExt(dir)
  {
    var tail := "/" + baseName;
    assert NoneOf(tail, {'.'});
    FindLastOfAppendNone(dir, tail, {'.'});
    assert dir + "/" + baseName == dir + tail;
    var pos := FindLastOf(dir, {'.'}).value;
    assert (dir + tail)[..pos] == dir[..pos];
  }

  /** The name written to when no `-o` is given: the standard stream for the
      standard stream, else the input without its extension and with
      `ext`. */
  function DefaultOutput(input: String, ext: String): (r: String)
    ensures input == StdStream ==> r == StdStream
    ensures input != StdStream ==> r == RemoveExt(input) + ext
  {
    if input == StdStream then StdStream else RemoveExt(input) + ext
  }

  /** The output the tool writes: the `-o` value when one is given. */
  function OutputName(outputOpt: String, input: String, ext: String): (r: String)
    ensures outputOpt != [] ==> r == outputOpt
    ensures outputOpt == [] ==> r == DefaultOutput(input, ext)
  {
    if outputOpt != [] then outputOpt else DefaultOutput(input, ext)
  }

  /** The extension of `convertLLVMToSPIRV`: text or binary SPIR-V. */
  function ForwardExt(textFormat: bool): String {
    if textFormat then SpirvTextExt else SpirvBinaryExt
  }

  /** `convertSPIRV`: exactly one of `-to-binary` and `-to-text` must be
      given; the output is binary SPIR-V for the first and text for the
      second. */
  function ConvertOutput(outputOpt: String, input: String, toBinary: bool, toText: bool): (r: Option<String>)
    ensures r.None? <==> toBinary == toText
    ensures r.Some? ==> r.value == OutputName(outputOpt, input, if toBinary then SpirvBinaryExt else SpirvTextExt)
  {
    if toBinary == toText then None
    else Some(OutputName(outputOpt, input, if toBinary then SpirvBinaryExt else SpirvTextExt))
  }

  /** The default output keeps the input's stem: taking its extension off
      again gives the input without extension, for each of the tool's
      single-dot extensions. */
  lemma OutputKeepsStem(input: String, ext: String)
    requires input != StdStream && ext in {SpirvBinaryExt, SpirvTextExt, LlvmBinaryExt}
    ensures RemoveExt(DefaultOutput(input, ext)) == RemoveExt(input)
  {
    var rest := ext[1..];
    assert ext == "." + rest;
    assert '.' !in rest;
    assert RemoveExt(input) + ext == RemoveExt(input) + "." + rest;
    RemoveExtOfJoin(RemoveExt(input), rest);
  }

  // -----------------------------------------------------------------------
  // --spirv-ext

  /** `ExtensionsStatus`: for each known extension, allowed, disallowed or
      unset. */
  type Status = map<String, Option<bool>>

  /** The entry name that stands for every known extension. */
  const AllExtensions: String := "all"

  /** Every name of `names` set to `v`, the other entries kept. */
  function Override(m: Status, names: set<String>, v: Option<bool>): (r: Status)
    ensures r.Keys == m.Keys + names
    ensures forall n :: n in names ==> r[n] == v
    ensures forall n :: n in m && n !in names ==> r[n] == m[n]
  {
    map n | n in m.Keys + names :: if n in names then v else m[n]
  }

  /** A later setting of the same names replaces an earlier one. */
  lemma OverrideTwice(m: Status, names: set<String>, v: Option<bool>, w: Option<bool>)
    ensures Override(Override(m, names, v), names, w) == Override(m, names, w)
  {
  }

  /** The loop over `ExtensionNamesMap` that gives every known extension the
      same status. */
  method SetAll(m: Status, names: set<String>, v: Option<bool>) returns (r: Status)
    ensures r == Override(m, names, v)
  {
    r := m;
    var rest := names;
    while rest != {}
      invariant rest <= names
      invariant r == Override(m, names - rest, v)
      decreases rest
    {
      var n :| n in rest;
      assert r[n := v] == Override(m, names - (rest - {n}), v);
      r := r[n := v];
      rest := rest - {n};
    }
    assert names - rest == names;
  }

  /** The starting status: every known extension allowed when reading
      SPIR-V (`-r`), unset otherwise. */
  function InitialStatus(known: set<String>, reverse: bool): (m: Status)
    ensures m.Keys == known
    ensures forall n :: n in known ==> m[n] == if reverse then Some(true) else None
  {
    Override(map[], known, if reverse then Some(true) else None)
  }

  /** An entry has a sign and a name after it. */
  predicate WellSigned(e: String) {
    |e| > 1 && (e[0] == '+' || e[0] == '-')
  }

  /** An entry the parser takes: signed, naming every extension or a known
      one. */
  predicate Accepted(e: String, known: set<String>) {
    WellSigned(e) && (e[1..] == AllExtensions || e[1..] in known)
  }

  predicate AllAccepted(entries: seq<String>, known: set<String>) {
    forall i :: 0 <= i < |entries| ==> Accepted(entries[i], known)
  }

  /** One entry: '+' allows and '-' disallows the named extension, or every
      known one. */
  function Apply(m: Status, e: String, known: set<String>): Status
    requires Accepted(e, known)
  {
    var v := Some(e[0] == '+');
    if e[1..] == AllExtensions then Override(m, known, v) else m[e[1..] := v]
  }

  /** The entries applied from first to last. */
  function ApplyAll(m: Status, entries: seq<String>, known: set<String>): Status
    requires AllAccepted(entries, known)
    decreases |entries|
  {
    if entries == [] then m
    else Apply(ApplyAll(m, entries[..|entries| - 1], known), entries[|entries| - 1], known)
  }

  /** `parseSPVExtOption`: 0 with every entry applied to the starting status
      when each entry is taken; else -1 at the first entry that is empty,
      unsigned, without a name or names an unknown extension, with the
      entries before it applied. */
  method ParseExtOption(entries: seq<String>, known: set<String>, reverse: bool) returns (rc: int, status: Status)
    ensures rc == 0 || rc == -1
    ensures rc == 0 <==> AllAccepted(entries, known)
    ensures rc == 0 ==> status == ApplyAll(InitialStatus(known, reverse), entries, known)
    ensures rc == -1 ==> exists k :: 0 <= k < |entries| && !Accepted(entries[k], known)
                                     && AllAccepted(entries[..k], known)
                                     && status == ApplyAll(InitialStatus(known, reverse), entries[..k], known)
  {
    status := SetAll(map[], known, if reverse then Some(true) else None);
    if |entries| == 0 {
      return 0, status;
    }
    var i := 0;
    while i < |entries|
      invariant 0 <= i <= |entries|
      invariant AllAccepted(entries[..i], known)
      invariant status == ApplyAll(InitialStatus(known, reverse), entries[..i], known)
    {
      var e := entries[i];
      if e == [] || (e[0] != '+' && e[0] != '-') {
        return -1, status;
      }
      var name := e[1..];
      if name == [] {
        return -1, status;
      }
      var on := e[0] == '+';
      if name == AllExtensions {
        status := SetAll(status, known, Some(on));
      } else {
        if name !in known {
          return -1, status;
        }
        status := status[name := Some(on)];
      }
      ghost var done := entries[..i + 1];
      assert done[..i] == entries[..i] && done[i] == e;
      i := i + 1;
    }
    assert entries[..i] == entries;
    return 0, status;
  }

  /** The sign of the last entry that names `n` or every extension, if
      any. */
  function LastSetting(entries: seq<String>, n: String): Option<bool>
    decreases |entries|
  {
    if entries == [] then None
    else
      var e := entries[|entries| - 1];
      if |e| > 1 && (e[1..] == n || e[1..] == AllExtensions) then Some(e[0] == '+')
      else LastSetting(entries[..|entries| - 1], n)
  }

  /** The last entry wins: a known extension ends with the status of the
      last entry that names it or every extension, and keeps its starting
      status when no entry does. No other name gets a status. */
  lemma {:induction false} LastEntryWins(m: Status, entries: seq<String>, known: set<String>, n: String)
    requires AllAccepted(entries, known) && m.Keys == known && n in known
    ensures ApplyAll(m, entries, known).Keys == known
    ensures ApplyAll(m, entries, known)[n] == if LastSetting(entries, n).Some? then LastSetting(entries, n) else m[n]
    decreases |entries|
  {
    if entries != [] {
      var init := entries[..|entries| - 1];
      assert AllAccepted(init, known) by {
        forall i | 0 <= i < |init|
          ensures Accepted(init[i], known)
        {
          assert init[i] == entries[i];
        }
      }
      LastEntryWins(m, init, known, n);
    }
  }

  // -----------------------------------------------------------------------
  // --spec-const

  /** What the module reports of a specialization constant: its id and its
      size in bytes. */
  datatype SpecConstInfo = SpecConstInfo(id: nat, size: nat)

  /** Why an option of `--spec-const` is refused. */
  datatype SpecConstError = BadFormat | BadId | UnknownId | BadType | SizeMismatch | BadValue

  predicate IsDigit(c: char) {
    '0' <= c <= '9'
  }

  predicate AllDigits(s: String) {
    forall j :: 0 <= j < |s| ==> IsDigit(s[j])
  }

  /** The value of a string of decimal digits. */
  function DecimalValue(s: String): nat
    requires AllDigits(s)
    decreases |s|
  {
    if s == [] then 0 else 10 * DecimalValue(s[..|s| - 1]) + (s[|s| - 1] as int - '0' as int)
  }

  /** `getAsInteger(10, ...)` into an integer wide enough for any value: one
      or more decimal digits and nothing else. */
  function ParseDecimal(s: String): (r: Option<nat>)
    ensures r.Some? <==> s != [] && AllDigits(s)
  {
    if s != [] && AllDigits(s) then Some(DecimalValue(s)) else None
  }

  /** How a number is written in decimal. */
  function DecimalText(n: nat): (s: String)
    ensures s != [] && AllDigits(s)
    decreases n
  {
    var d := ['0' + (n % 10) as char];
    if n < 10 then d else DecimalText(n / 10) + d
  }

  /** Reading a number written in decimal gives it back. */
  lemma {:induction false} DecimalRoundTrip(n: nat)
    ensures ParseDecimal(DecimalText(n)) == Some(n)
    decreases n
  {
    var s := DecimalText(n);
    var d := ['0' + (n % 10) as char];
    assert d[0] as int - '0' as int == n % 10;
    if n >= 10 {
      DecimalRoundTrip(n / 10);
      assert s[..|s| - 1] == DecimalText(n / 10);
      assert s[|s| - 1] == d[0];
    } else {
      assert s == d && s[..|s| - 1] == [];
      assert DecimalValue(s) == 10 * DecimalValue([]) + (d[0] as int - '0' as int);
    }
  }

  /** `getAsInteger` into a 32-bit unsigned: a decimal below 2^32. */
  function ParseU32(s: String): (r: Option<nat>)
    ensures r.Some? ==> r.value < Pow32
    ensures r.Some? <==> ParseDecimal(s).Some? && ParseDecimal(s).value < Pow32
    ensures r.Some? ==> r.value == ParseDecimal(s).value
  {
    match ParseDecimal(s)
    case Some(v) => if v < Pow32 then Some(v) else None
    case None => None
  }

  /** The `Width` after `i` or `f`: left at 0 when it does not parse. */
  function WidthOf(s: String): (w: nat)
    ensures w < Pow32
    ensures ParseU32(s).None? ==> w == 0
    ensures ParseU32(s).Some? ==> w == ParseU32(s).value
  {
    match ParseU32(s)
    case Some(w) => w
    case None => 0
  }

  /** The bytes an integer of `w` bits takes. */
  function ByteSize(w: nat): nat {
    if w < 8 then 1 else w / 8
  }

  /** The first module constant with the id. */
  function FindInfo(infos: seq<SpecConstInfo>, id: nat): (r: Option<SpecConstInfo>)
    ensures r.Some? ==> r.value in infos && r.value.id == id
    ensures r.None? ==> forall k :: 0 <= k < |infos| ==> infos[k].id != id
    decreases |infos|
  {
    if infos == [] then None
    else if infos[0].id == id then Some(infos[0])
    else FindInfo(infos[1..], id)
  }

  /** The `i` branch: the width must be a power of two no larger than 64,
      its byte size that of the module's constant, and the value a decimal
      below 2^64 with no bits at or above the width. */
  function IntegerSpecConst(id: nat, widthText: String, valueText: String, size: nat): (r: Result<(nat, nat), SpecConstError>)
    ensures r.Success? ==> r.value.0 == id && r.value.1 < Pow2(WidthOf(widthText)) && r.value.1 < Pow64
    ensures r.Success? ==> var w := WidthOf(widthText);
                           IsPowerOfTwo(w) && w <= 64 && ByteSize(w) == size
                           && ParseDecimal(valueText) == Some(r.value.1)
  {
    var w := WidthOf(widthText);
    if !IsPowerOfTwo(w) || w > 64 then Failure(BadType)
    else if ByteSize(w) != size then Failure(SizeMismatch)
    else match ParseDecimal(valueText)
      case None => Failure(BadValue)
      case Some(v) =>
        if v >= Pow64 || (w < 64 && v >= Pow2(w)) then Failure(BadValue)
        else
          PowersUpTo64(w);
          assert w == 64 ==> Pow2(w) == Pow64;
          Success((id, v))
  }

  /** The powers of two up to 64 are 2^0 to 2^6, and 2^64 is the largest
      bound they give. */
  lemma PowersUpTo64(w: nat)
    requires IsPowerOfTwo(w) && w <= 64
    ensures w == 1 || w == 2 || w == 4 || w == 8 || w == 16 || w == 32 || w == 64
    ensures Pow2(w) <= Pow64 && Pow2(64) == Pow64
  {
    PowerOfTwoCases(w);
    Pow2Monotone(w, 64);
    Pow2At64();
  }

  lemma PowerOfTwoCases(w: nat)
    requires IsPowerOfTwo(w) && w <= 64
    ensures w == 1 || w == 2 || w == 4 || w == 8 || w == 16 || w == 32 || w == 64
  {
    if w > 1 {
      var h := w / 2;
      if h > 1 {
        var q := h / 2;
        if q > 1 {
          var e := q / 2;
          if e > 1 {
            var x := e / 2;
            if x > 1 {
              var y := x / 2;
              if y > 1 {
                assert y / 2 <= 1;
              }
            }
          }
        }
      }
    }
  }

  lemma {:induction false} Pow2Monotone(a: nat, b: nat)
    requires a <= b
    ensures Pow2(a) <= Pow2(b)
    decreases b
  {
    if a < b {
      Pow2Monotone(a, b - 1);
    }
  }

  /** Regrouping a doubled product, kept apart from `Pow2Add` so that the
      solver meets the nonlinear step on its own. */
  lemma DoubleProduct(x: int, y: int)
    ensures 2 * (x * y) == x * (2 * y)
  {
  }

  lemma Pow2At64()
    ensures Pow2(64) == Pow64
  {
    assert Pow2(2) == 4;
    Pow2Add(2, 2);
    Pow2Add(4, 4);
    Pow2Add(8, 8);
    Pow2Add(16, 16);
    Pow2Add(32, 32);
  }

  lemma {:induction false} Pow2Add(a: nat, b: nat)
    ensures Pow2(a + b) == Pow2(a) * Pow2(b)
    decreases b
  {
    if b > 0 {
      Pow2Add(a, b - 1);
      var x, y := Pow2(a), Pow2(b - 1);
      assert Pow2(a + b) == 2 * (x * y);
      DoubleProduct(x, y);
    }
  }

  /** Every value that fits in an allowed width, written in decimal with
      that width and the width's byte size, is taken as it is. */
  lemma IntegerAccepted(id: nat, w: nat, v: nat)
    requires IsPowerOfTwo(w) && w <= 64 && v < Pow2(w)
    ensures IntegerSpecConst(id, DecimalText(w), DecimalText(v), ByteSize(w)) == Success((id, v))
  {
    WidthOfDecimal(w);
    DecimalRoundTrip(v);
    IntegerValueCheck(id, DecimalText(w), DecimalText(v), ByteSize(w), w, v);
  }

  /** Once the width is acceptable, the value decides: a value below 2^w
      is taken. */
  lemma IntegerValueCheck(id: nat, widthText: String, valueText: String, size: nat, w: nat, v: nat)
    requires WidthOf(widthText) == w && IsPowerOfTwo(w) && w <= 64 && ByteSize(w) == size
    requires ParseDecimal(valueText) == Some(v)
    ensures IntegerSpecConst(id, widthText, valueText, size)
            == if v < Pow2(w) then Success((id, v)) else Failure(BadValue)
  {
    PowersUpTo64(w);
  }

  /** A width written in decimal is read back. */
  lemma WidthOfDecimal(w: nat)
    requires w <= 64
    ensures WidthOf(DecimalText(w)) == w
  {
    DecimalRoundTrip(w);
  }

  /** A value with a bit at or above the width is refused. */
  lemma IntegerTooWideRejected(id: nat, w: nat, valueText: String)
    requires IsPowerOfTwo(w) && w <= 64
    requires ParseDecimal(valueText).Some? && ParseDecimal(valueText).value >= Pow2(w)
    ensures IntegerSpecConst(id, DecimalText(w), valueText, ByteSize(w)) == Failure(BadValue)
  {
    WidthOfDecimal(w);
    IntegerValueCheck(id, DecimalText(w), valueText, ByteSize(w), w, ParseDecimal(valueText).value);
  }

  /** A width that is not a power of two, or is above 64, is refused before
      the size and the value are looked at; so is a width text that does not
      parse, which leaves the width at 0. */
  lemma IntegerBadWidthRejected(id: nat, widthText: String, valueText: String, size: nat)
    requires ParseU32(widthText).None? || !IsPowerOfTwo(ParseU32(widthText).value) || ParseU32(widthText).value > 64
    ensures IntegerSpecConst(id, widthText, valueText, size) == Failure(BadType)
  {
    assert !IsPowerOfTwo(0);
  }

  /** An allowed width whose byte size is not that of the module's constant
      is refused, whatever the value. */
  lemma IntegerSizeMismatchRejected(id: nat, w: nat, valueText: String, size: nat)
    requires IsPowerOfTwo(w) && w <= 64 && ByteSize(w) != size
    ensures IntegerSpecConst(id, DecimalText(w), valueText, size) == Failure(SizeMismatch)
  {
    WidthOfDecimal(w);
  }

  /** A value text that is not a decimal is refused once the width and the
      size are right. */
  lemma IntegerNotDecimalRejected(id: nat, w: nat, valueText: String)
    requires IsPowerOfTwo(w) && w <= 64 && ParseDecimal(valueText).None?
    ensures IntegerSpecConst(id, DecimalText(w), valueText, ByteSize(w)) == Failure(BadValue)
  {
    WidthOfDecimal(w);
  }

  /** An option is cut at no more than two colons. */
  const ParamCuts: nat := 2

  /** One option `id:type:value`: the id must be a 32-bit decimal of a
      constant of the module; an `i` type is checked by `IntegerSpecConst`;
      an `f` type needs width 16, 32 or 64 and a value `floatBits` converts
      (a hexadecimal or decimal floating-point text, given here as a
      parameter); any other type is refused. */
  function ParseSpecConst(option: String, infos: seq<SpecConstInfo>,
                          floatBits: (String, nat) -> Option<nat>): (r: Result<(nat, nat), SpecConstError>)
    ensures |SplitAtMost(option, ':', ParamCuts)| < 3 ==> r == Failure(BadFormat)
    ensures r.Success? ==> exists k :: 0 <= k < |infos| && infos[k].id == r.value.0 && r.value.0 < Pow32
    ensures var params := SplitAtMost(option, ':', ParamCuts);
            |params| >= 3 && ParseU32(params[0]).None? ==> r == Failure(BadId)
    ensures var params := SplitAtMost(option, ':', ParamCuts);
            |params| >= 3 && ParseU32(params[0]).Some? && FindInfo(infos, ParseU32(params[0]).value).None?
            ==> r == Failure(UnknownId)
    ensures var params := SplitAtMost(option, ':', ParamCuts);
            |params| >= 3 && ParseU32(params[0]).Some? && FindInfo(infos, ParseU32(params[0]).value).Some?
            ==> var id, ty := ParseU32(params[0]).value, params[1];
                var info := FindInfo(infos, id).value;
                && (ty != [] && ty[0] == 'i' ==> r == IntegerSpecConst(id, ty[1..], params[2], info.size))
                && (ty != [] && ty[0] == 'f' ==>
                      (WidthOf(ty[1..]) in {16, 32, 64} && floatBits(params[2], WidthOf(ty[1..])).Some?
                       <==> r.Success?))
                && (ty != [] && ty[0] == 'f' && r.Success? ==> r.value == (id, floatBits(params[2], WidthOf(ty[1..])).value))
                && (ty == [] || (ty[0] != 'i' && ty[0] != 'f') ==> r == Failure(BadType))
  {
    var params := SplitAtMost(option, ':', ParamCuts);
    if |params| < 3 then Failure(BadFormat)
    else match ParseU32(params[0])
      case None => Failure(BadId)
      case Some(id) =>
        match FindInfo(infos, id)
        case None => Failure(UnknownId)
        case Some(info) =>
          var ty := params[1];
          if ty != [] && ty[0] == 'i' then IntegerSpecConst(id, ty[1..], params[2], info.size)
          else if ty != [] && ty[0] == 'f' then
            var w := WidthOf(ty[1..]);
            if w != 16 && w != 32 && w != 64 then Failure(BadType)
            else match floatBits(params[2], w)
              case None => Failure(BadValue)
              case Some(bits) => Success((id, bits))
          else Failure(BadType)
  }

  /** The three fields of an option whose first two fields hold no ':'. */
  lemma OptionFields(idText: String, tyText: String, valueText: String)
    requires ':' !in idText && ':' !in tyText
    ensures SplitAtMost(idText + [':'] + tyText + [':'] + valueText, ':', ParamCuts) == [idText, tyText, valueText]
  {
    assert idText + [':'] + tyText + [':'] + valueText == idText + [':'] + (tyText + [':'] + valueText);
    SplitAtFirst(idText, ':', tyText + [':'] + valueText, ParamCuts);
    SplitAtFirst(tyText, ':', valueText, ParamCuts - 1);
    SplitWhole(valueText, ':', 0);
  }

  /** Decimal text holds no ':'. */
  lemma DecimalHasNoColon(n: nat)
    ensures ':' !in DecimalText(n)
  {
    assert AllDigits(DecimalText(n));
  }

  /** An option `id:iW:value` written in decimal, for a constant of the
      module whose size is that of W bits, sets that constant to the value
      when it fits in W bits: the value read back is the value written. */
  lemma IntegerOptionRoundTrip(id: nat, w: nat, v: nat, infos: seq<SpecConstInfo>,
                               floatBits: (String, nat) -> Option<nat>)
    requires id < Pow32 && IsPowerOfTwo(w) && w <= 64 && v < Pow2(w)
    requires FindInfo(infos, id).Some? && FindInfo(infos, id).value.size == ByteSize(w)
    ensures ParseSpecConst(DecimalText(id) + [':'] + ("i" + DecimalText(w)) + [':'] + DecimalText(v), infos, floatBits)
            == Success((id, v))
  {
    var tyText := "i" + DecimalText(w);
    var option := DecimalText(id) + [':'] + tyText + [':'] + DecimalText(v);
    DecimalHasNoColon(id);
    DecimalHasNoColon(w);
    assert tyText[1..] == DecimalText(w);
    OptionFields(DecimalText(id), tyText, DecimalText(v));
    var params := SplitAtMost(option, ':', ParamCuts);
    DecimalRoundTrip(id);
    assert ParseU32(params[0]) == Some(id);
    assert params[1] == tyText && tyText[0] == 'i';
    assert ParseSpecConst(option, infos, floatBits)
           == IntegerSpecConst(id, DecimalText(w), DecimalText(v), ByteSize(w));
    IntegerAccepted(id, w, v);
  }

  /** The options of the `--spec-const` string: its words between spaces. */
  function Options(text: String): seq<String> {
    Sequences.Filter(Pieces(text, ' '), (w: String) => w != [])
  }

  /** The options `ParseSpecConst` accepts. */
  function Accepts(infos: seq<SpecConstInfo>, floatBits: (String, nat) -> Option<nat>): String -> bool {
    (option: String) => ParseSpecConst(option, infos, floatBits).Success?
  }

  /** Every option is accepted. */
  predicate AllParse(options: seq<String>, infos: seq<SpecConstInfo>, floatBits: (String, nat) -> Option<nat>) {
    Sequences.All(options, Accepts(infos, floatBits))
  }

  /** `setSpecConst` for each option in turn. */
  function SetSpecConsts(consts: map<nat, nat>, options: seq<String>, infos: seq<SpecConstInfo>,
                         floatBits: (String, nat) -> Option<nat>): map<nat, nat>
    requires AllParse(options, infos, floatBits)
    decreases |options|
  {
    if options == [] then consts
    else
      var v := ParseSpecConst(options[|options| - 1], infos, floatBits).value;
      SetSpecConsts(consts, options[..|options| - 1], infos, floatBits)[v.0 := v.1]
  }

  /** `parseSpecConstOpt`, which reports failure with `true`: it fails when
      the module's constants cannot be read (`infos` is `None`) or an option
      is refused; otherwise every option sets its constant, in order. */
  method ParseSpecConstOpt(text: String, infos: Option<seq<SpecConstInfo>>,
                           floatBits: (String, nat) -> Option<nat>, consts: map<nat, nat>)
    returns (failed: bool, consts': map<nat, nat>)
    ensures infos.None? ==> failed && consts' == consts
    ensures !failed <==> infos.Some? && AllParse(Options(text), infos.value, floatBits)
    ensures !failed ==> consts' == SetSpecConsts(consts, Options(text), infos.value, floatBits)
  {
    consts' := consts;
    if infos.None? {
      return true, consts';
    }
    var options := Options(text);
    var i := 0;
    while i < |options|
      invariant 0 <= i <= |options|
      invariant AllParse(options[..i], infos.value, floatBits)
      invariant consts' == SetSpecConsts(consts, options[..i], infos.value, floatBits)
    {
      var r := ParseSpecConst(options[i], infos.value, floatBits);
      if r.Failure? {
        if AllParse(options, infos.value, floatBits) {
          Sequences.AllEach(options, Accepts(infos.value, floatBits), i);
        }
        return true, consts';
      }
      SetSpecConstsStep(consts, options, i, infos.value, floatBits);
      consts' := consts'[r.value.0 := r.value.1];
      i := i + 1;
    }
    assert options[..i] == options;
    return false, consts';
  }

  lemma SetSpecConstsStep(consts: map<nat, nat>, options: seq<String>, i: nat, infos: seq<SpecConstInfo>,
                          floatBits: (String, nat) -> Option<nat>)
    requires i < |options| && AllParse(options[..i], infos, floatBits)
    requires ParseSpecConst(options[i], infos, floatBits).Success?
    ensures AllParse(options[..i + 1], infos, floatBits)
    ensures var v := ParseSpecConst(options[i], infos, floatBits).value;
            SetSpecConsts(consts, options[..i + 1], infos, floatBits)
              == SetSpecConsts(consts, options[..i], infos, floatBits)[v.0 := v.1]
  {
    var done := options[..i + 1];
    assert done[..i] == options[..i] && done[i] == options[i];
  }

  /** The value a constant ends with: that of the last option for its id. */
  function LastValue(options: seq<String>, infos: seq<SpecConstInfo>,
                     floatBits: (String, nat) -> Option<nat>, id: nat): Option<nat>
    requires AllParse(options, infos, floatBits)
    decreases |options|
  {
    if options == [] then None
    else
      var v := ParseSpecConst(options[|options| - 1], infos, floatBits).value;
      if v.0 == id then Some(v.1) else LastValue(options[..|options| - 1], infos, floatBits, id)
  }

  /** For duplicate ids the later option takes precedence; a constant no
      option names keeps its value. */
  lemma {:induction false} LaterSpecConstWins(consts: map<nat, nat>, options: seq<String>, infos: seq<SpecConstInfo>,
                                              floatBits: (String, nat) -> Option<nat>, id: nat)
    requires AllParse(options, infos, floatBits)
    ensures var m := SetSpecConsts(consts, options, infos, floatBits);
            match LastValue(options, infos, floatBits, id)
            case Some(v) => id in m && m[id] == v
            case None => (id in m <==> id in consts) && (id in consts ==> m[id] == consts[id])
    decreases |options|
  {
    if options != [] {
      LaterSpecConstWins(consts, options[..|options| - 1], infos, floatBits, id);
    }
  }

  // -----------------------------------------------------------------------
  // Mode flags

  /** The mode flags of the command line. */
  datatype Flags = Flags(toText: bool, toBinary: bool, reverse: bool, regularize: bool,
                         specConstInfo: bool, printReport: bool)

  /** What the tool goes on to do: refuse the flags (exit code -1), convert
      between SPIR-V binary and text, translate LLVM to SPIR-V or back,
      regularize LLVM, or only report on a SPIR-V module (the constants, the
      module summary, or both in that order). */
  datatype Action = Rejected | ConvertSpirv | LlvmToSpirv | SpirvToLlvm | RegularizeLlvm
                  | Report(specConstInfo: bool, printReport: bool)

  /** The checks at the end of `main`, in their order. */
  function Dispatch(f: Flags): (a: Action)
    ensures a == Rejected <==> (f.toText && (f.toBinary || f.reverse || f.regularize))
                               || (f.toBinary && (f.toText || f.reverse || f.regularize))
                               || (f.reverse && f.regularize)
    ensures a == ConvertSpirv <==> (f.toText != f.toBinary) && !f.reverse && !f.regularize
    ensures a == SpirvToLlvm <==> f.reverse && !f.regularize && !f.toText && !f.toBinary
    ensures a == RegularizeLlvm <==> f.regularize && !f.reverse && !f.toText && !f.toBinary
    ensures a == LlvmToSpirv <==> !f.toText && !f.toBinary && !f.reverse && !f.regularize
                                  && !f.specConstInfo && !f.printReport
    ensures a.Report? <==> !f.toText && !f.toBinary && !f.reverse && !f.regularize
                           && (f.specConstInfo || f.printReport)
    ensures a.Report? ==> a == Report(f.specConstInfo, f.printReport)
  {
    if f.toText && (f.toBinary || f.reverse || f.regularize) then Rejected
    else if f.toBinary && (f.toText || f.reverse || f.regularize) then Rejected
    else if f.toBinary || f.toText then ConvertSpirv
    else if !f.reverse && !f.regularize && !f.specConstInfo && !f.printReport then LlvmToSpirv
    else if f.reverse && f.regularize then Rejected
    else if f.reverse then SpirvToLlvm
    else if f.regularize then RegularizeLlvm
    else Report(f.specConstInfo, f.printReport)
  }

  /** The file a chosen action writes when no `-o` is given, if it writes
      one. */
  function ActionOutput(a: Action, input: String, textFormat: bool, toBinary: bool): (r: Option<String>)
    ensures r.None? <==> a.Rejected? || a.Report?
    ensures a.LlvmToSpirv? ==> r == Some(DefaultOutput(input, if textFormat then SpirvTextExt else SpirvBinaryExt))
    ensures a.SpirvToLlvm? ==> r == Some(DefaultOutput(input, LlvmBinaryExt))
    ensures a.RegularizeLlvm? ==> r == Some(DefaultOutput(input, RegularizedExt))
    ensures a.ConvertSpirv? ==> r == Some(DefaultOutput(input, if toBinary then SpirvBinaryExt else SpirvTextExt))
  {
    match a
    case LlvmToSpirv => Some(DefaultOutput(input, ForwardExt(textFormat)))
    case SpirvToLlvm => Some(DefaultOutput(input, LlvmBinaryExt))
    case RegularizeLlvm => Some(DefaultOutput(input, RegularizedExt))
    case ConvertSpirv => Some(DefaultOutput(input, if toBinary then SpirvBinaryExt else SpirvTextExt))
    case _ => None
  }

  /** A conversion `main` dispatches to passes `convertSPIRV`'s own check of
      the two flags, and writes the file `ActionOutput` names. */
  lemma ConversionOutputAgrees(f: Flags, input: String, textFormat: bool)
    requires Dispatch(f) == ConvertSpirv
    ensures ConvertOutput([], input, f.toBinary, f.toText).Some?
    ensures ConvertOutput([], input, f.toBinary, f.toText) == ActionOutput(ConvertSpirv, input, textFormat, f.toBinary)
  {
  }

  /** The file a translation or conversion writes, taken without its
      extension, is the input taken without its extension; a regularized
      module keeps the stem with ".regularized" after it. */
  lemma ActionOutputKeepsStem(a: Action, input: String, textFormat: bool, toBinary: bool)
    requires input != StdStream
    ensures a.LlvmToSpirv? || a.SpirvToLlvm? || a.ConvertSpirv?
            ==> RemoveExt(ActionOutput(a, input, textFormat, toBinary).value) == RemoveExt(input)
    ensures a.RegularizeLlvm?
            ==> RemoveExt(ActionOutput(a, input, textFormat, toBinary).value) == RemoveExt(input) + ".regularized"
  {
    match a
    case LlvmToSpirv => OutputKeepsStem(input, ForwardExt(textFormat));
    case SpirvToLlvm => OutputKeepsStem(input, LlvmBinaryExt);
    case ConvertSpirv => OutputKeepsStem(input, if toBinary then SpirvBinaryExt else SpirvTextExt);
    case RegularizeLlvm =>
      assert RemoveExt(input) + RegularizedExt == (RemoveExt(input) + ".regularized") + "." + "bc";
      RemoveExtOfJoin(RemoveExt(input) + ".regularized", "bc");
    case _ =>
  }
}
