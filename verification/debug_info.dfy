/** The self-contained computations of the reader of debug information
    (the OpenCL.DebugInfo.100 and NonSemantic.Shader.DebugInfo.100 extended
    instruction sets): how a file name is split into directory and base name,
    how a checksum is recovered from a source text, which producer string a
    module records, the element count of an array type, the size of a vector
    type and the access flag of a member. The debug-metadata objects these
    feed are not part of this model. */
module DebugInfo {
  import opened Wrappers
  import opened Strings
  import opened Numbers

  // -----------------------------------------------------------------------
  // File names

  /** The characters `find_last_of` looks for: both path separators. */
  const Separators: set<char> := {'/', '\\'}

  datatype SplitName = SplitName(baseName: String, path: String)

  /** `SplitFileName`: the base name is what follows the last separator and
      the path what precedes it; a name with no separator lies in ".". */
  function SplitFileName(fileName: String): (r: SplitName)
    ensures NoneOf(r.baseName, Separators)
    ensures NoneOf(fileName, Separators) ==> r == SplitName(fileName, ".")
    ensures !NoneOf(fileName, Separators) ==>
              |r.path| < |fileName| && fileName[|r.path|] in Separators
              && r.path + [fileName[|r.path|]] + r.baseName == fileName
  {
    match FindLastOf(fileName, Separators)
    case None => SplitName(fileName, ".")
    case Some(loc) =>
      assert fileName[..loc] + [fileName[loc]] + fileName[loc + 1..] == fileName;
      SplitName(fileName[loc + 1..], fileName[..loc])
  }

  /** Joining a directory and a base name with either separator and
      splitting the result gives both back. */
  lemma SplitJoinedName(path: String, sep: char, baseName: String)
    requires sep in Separators && NoneOf(baseName, Separators)
    ensures SplitFileName(path + [sep] + baseName) == SplitName(baseName, path)
  {
    var name := path + [sep] + baseName;
    FindLastOfJoin(path, sep, baseName, Separators);
    assert name[..|path|] == path;
    assert name[|path| + 1..] == baseName;
  }

  // -----------------------------------------------------------------------
  // Checksums

  /** The checksum kinds LLVM's `DIFile::getChecksumKind` recognises. */
  datatype ChecksumKind = MD5 | SHA1 | SHA256

  datatype ChecksumInfo = ChecksumInfo(kind: ChecksumKind, checksum: String)

  /** The marker that introduces a checksum in a source text, and the length
      of its part before the kind's name. */
  const ChecksumKindPrefix: String := "//__CSK_"
  const KindNameOffset: nat := 4

  function KindName(k: ChecksumKind): String {
    match k
    case MD5 => "CSK_MD5"
    case SHA1 => "CSK_SHA1"
    case SHA256 => "CSK_SHA256"
  }

  /** `DIFile::getChecksumKind`: the kind whose name is exactly `s`. */
  function ChecksumKindOf(s: String): (r: Option<ChecksumKind>)
    ensures r.Some? ==> KindName(r.value) == s
    ensures r.None? ==> forall k :: KindName(k) != s
  {
    if s == "CSK_MD5" then Some(MD5)
    else if s == "CSK_SHA1" then Some(SHA1)
    else if s == "CSK_SHA256" then Some(SHA256)
    else None
  }

  predicate IsHexDigit(c: char) {
    '0' <= c <= '9' || 'a' <= c <= 'f' || 'A' <= c <= 'F'
  }

  predicate IsHexString(s: String) {
    forall j :: 0 <= j < |s| ==> IsHexDigit(s[j])
  }

  /** `find_if_not(isHexDigit)`: the length of the longest prefix of hex
      digits. */
  function HexPrefixLength(s: String): (n: nat)
    ensures n <= |s| && IsHexString(s[..n])
    ensures n < |s| ==> !IsHexDigit(s[n])
    decreases |s|
  {
    if s == [] || !IsHexDigit(s[0]) then 0
    else
      var n := 1 + HexPrefixLength(s[1..]);
      assert s[..n] == [s[0]] + s[1..][..n - 1];
      n
  }

  /** `ltrim(':')`: the text without its leading colons. */
  function TrimColons(s: String): (r: String)
    ensures |r| <= |s| && r == s[|s| - |r|..]
    ensures r == [] || r[0] != ':'
    ensures forall j :: 0 <= j < |s| - |r| ==> s[j] == ':'
    decreases |s|
  {
    if s != [] && s[0] == ':' then TrimColons(s[1..]) else s
  }

  /** The first colon at or after the marker lies after the marker. */
  lemma ColonAfterMarker(text: String, kindPos: nat)
    requires MatchAt(text, ChecksumKindPrefix, kindPos)
    ensures Find(text, ":", kindPos).Some? ==> Find(text, ":", kindPos).value >= kindPos + |ChecksumKindPrefix|
  {
    var r := Find(text, ":", kindPos);
    if r.Some? && r.value < kindPos + |ChecksumKindPrefix| {
      assert text[r.value] == ChecksumKindPrefix[r.value - kindPos];
      assert text[r.value..r.value + 1] == ":";
    }
  }

  /** `ParseChecksum`: the marker's first occurrence starts the kind's name,
      which runs up to the next colon (or to the end); the checksum is the
      run of hex digits after that colon and any that follow it. A missing
      marker or an unknown kind gives no checksum. */
  function ParseChecksum(text: String): (r: Option<ChecksumInfo>)
    ensures !Contains(text, ChecksumKindPrefix) ==> r.None?
    ensures r.Some? ==> IsHexString(r.value.checksum)
  {
    match Find(text, ChecksumKindPrefix, 0)
    case None => None
    case Some(kindPos) => ChecksumAt(text, kindPos)
  }

  /** The reader from a marker at `kindPos` on. */
  function ChecksumAt(text: String, kindPos: nat): (r: Option<ChecksumInfo>)
    requires MatchAt(text, ChecksumKindPrefix, kindPos)
    ensures r.Some? ==> IsHexString(r.value.checksum)
  {
    ColonAfterMarker(text, kindPos);
    var colon := Find(text, ":", kindPos);
    var start := kindPos + KindNameOffset;
    var kindText := if colon.Some? then text[start..colon.value] else text[start..];
    var rest := if colon.Some? then text[colon.value..] else [];
    var checksum := TrimColons(rest);
    match ChecksumKindOf(kindText)
    case None => None
    case Some(kind) => Some(ChecksumInfo(kind, checksum[..HexPrefixLength(checksum)]))
  }

  /** How a checksum is written into a source text. */
  function ChecksumText(kind: ChecksumKind, checksum: String): String {
    "//__" + KindName(kind) + ":" + checksum
  }

  /** A marker written after text without '/' is the first one. */
  lemma FirstMarker(pre: String, rest: String)
    requires '/' !in pre && MatchAt(pre + rest, ChecksumKindPrefix, |pre|)
    ensures Find(pre + rest, ChecksumKindPrefix, 0) == Some(|pre|)
  {
    var text := pre + rest;
    forall j | 0 <= j < |pre|
      ensures !MatchAt(text, ChecksumKindPrefix, j)
    {
      if MatchAt(text, ChecksumKindPrefix, j) {
        MatchAtHead(text, ChecksumKindPrefix, j);
      }
    }
    FindFirstAt(text, ChecksumKindPrefix, 0, |pre|);
  }

  /** The text a marker with kind name `name` and then `tail` make after
      `pre`. */
  function MarkedText(pre: String, name: String, tail: String): String {
    pre + "//__" + name + ":" + tail
  }

  /** In a marked text the marker is found where it was written. */
  lemma MarkerFound(pre: String, name: String, tail: String)
    requires '/' !in pre && |name| >= 4 && name[..4] == "CSK_"
    ensures Find(MarkedText(pre, name, tail), ChecksumKindPrefix, 0) == Some(|pre|)
  {
    var hdr := "//__" + name;
    var text := MarkedText(pre, name, tail);
    assert text == pre + (hdr + ([':'] + tail));
    assert text[|pre|..|pre| + 8] == "//__" + name[..4];
    FirstMarker(pre, hdr + ([':'] + tail));
  }

  /** In a marked text whose kind name has no colon, the first colon after
      the marker ends the name. */
  lemma ColonFound(pre: String, name: String, tail: String)
    requires ':' !in name
    ensures Find(MarkedText(pre, name, tail), ":", |pre|) == Some(|pre| + 4 + |name|)
  {
    var text := MarkedText(pre, name, tail);
    ColonFoundIn(text, pre, name, tail);
  }

  lemma ColonFoundIn(text: String, pre: String, name: String, tail: String)
    requires ':' !in name && text == MarkedText(pre, name, tail)
    ensures Find(text, ":", |pre|) == Some(|pre| + 4 + |name|)
  {
    var hdr := "//__" + name;
    assert ':' !in hdr;
    assert text == (pre + hdr) + ([':'] + tail);
    ColonAfterHeader(text, pre, hdr, tail);
  }

  /** The colon that follows a header without colons is the first one
      after the header's start. */
  lemma ColonAfterHeader(text: String, pre: String, hdr: String, tail: String)
    requires ':' !in hdr && text == (pre + hdr) + ([':'] + tail)
    ensures Find(text, ":", |pre|) == Some(|pre| + |hdr|)
  {
    var colonPos := |pre| + |hdr|;
    assert text[colonPos] == ':';
    assert text[|pre|..colonPos] == hdr;
    FirstOfChar(text, ':', |pre|, colonPos);
  }

  lemma MarkedTextSlices(pre: String, name: String, tail: String)
    ensures var text := MarkedText(pre, name, tail);
            && |pre| + 4 + |name| < |text|
            && text[|pre| + KindNameOffset..|pre| + 4 + |name|] == name
            && text[|pre| + 4 + |name|..] == [':'] + tail
  {
    var text := MarkedText(pre, name, tail);
    assert text == (pre + "//__") + name + ([':'] + tail);
  }

  /** What the reader makes of a marker written after text without '/':
      the name up to the first colon selects the kind, and the checksum is
      the run of hex digits after the colons. */
  lemma ParseAfterMarker(pre: String, name: String, tail: String)
    requires '/' !in pre && ':' !in name && |name| >= 4 && name[..4] == "CSK_"
    ensures ParseChecksum(MarkedText(pre, name, tail))
            == match ChecksumKindOf(name)
               case None => None
               case Some(kind) => Some(ChecksumInfo(kind, TrimColons(tail)[..HexPrefixLength(TrimColons(tail))]))
  {
    var text := MarkedText(pre, name, tail);
    var colon := |pre| + 4 + |name|;
    MarkerFound(pre, name, tail);
    ColonFound(pre, name, tail);
    MarkedTextSlices(pre, name, tail);
    ParseAt(text, |pre|, colon);
    assert text[|pre| + KindNameOffset..colon] == name;
    TrimLeadingColon(tail);
    assert TrimColons(text[colon..]) == TrimColons(tail);
  }

  /** A leading colon is trimmed with the rest. */
  lemma TrimLeadingColon(tail: String)
    ensures TrimColons([':'] + tail) == TrimColons(tail)
  {
    assert ([':'] + tail)[1..] == tail;
  }

  /** The reader once the marker and the colon after it are located. */
  lemma ParseAt(text: String, kindPos: nat, colon: nat)
    requires Find(text, ChecksumKindPrefix, 0) == Some(kindPos)
    requires Find(text, ":", kindPos) == Some(colon)
    requires kindPos + KindNameOffset <= colon
    ensures ParseChecksum(text)
            == match ChecksumKindOf(text[kindPos + KindNameOffset..colon])
               case None => None
               case Some(kind) => Some(ChecksumInfo(kind, TrimColons(text[colon..])[..HexPrefixLength(TrimColons(text[colon..]))]))
  {
    assert ParseChecksum(text) == ChecksumAt(text, kindPos);
  }

  /** A hex run followed by a character that is not a hex digit is the
      longest hex prefix. */
  lemma {:induction false} HexPrefixOfJoin(hex: String, post: String)
    requires IsHexString(hex) && (post == [] || !IsHexDigit(post[0]))
    ensures HexPrefixLength(hex + post) == |hex|
    decreases |hex|
  {
    if hex == [] {
      assert hex + post == post;
    } else {
      assert (hex + post)[1..] == hex[1..] + post;
      assert IsHexString(hex[1..]) by {
        forall j | 0 <= j < |hex| - 1
          ensures IsHexDigit(hex[1..][j])
        {
          assert hex[1..][j] == hex[j + 1];
        }
      }
      HexPrefixOfJoin(hex[1..], post);
    }
  }

  /** Every kind's name starts with "CSK_" and has no colon. */
  lemma KindNameShape(kind: ChecksumKind)
    ensures ':' !in KindName(kind) && |KindName(kind)| >= 4 && KindName(kind)[..4] == "CSK_"
  {
  }

  lemma WrittenIsMarked(pre: String, kind: ChecksumKind, checksum: String, post: String)
    ensures pre + ChecksumText(kind, checksum) + post == MarkedText(pre, KindName(kind), checksum + post)
  {
  }

  /** A checksum written after text that holds no '/' and followed by a
      character that is not a hex digit is read back with its kind. */
  lemma ChecksumRoundTrip(pre: String, kind: ChecksumKind, checksum: String, post: String)
    requires '/' !in pre && checksum != [] && IsHexString(checksum)
    requires post == [] || !IsHexDigit(post[0])
    ensures ParseChecksum(pre + ChecksumText(kind, checksum) + post) == Some(ChecksumInfo(kind, checksum))
  {
    var name := KindName(kind);
    KindNameShape(kind);
    var tail := checksum + post;
    WrittenIsMarked(pre, kind, checksum, post);
    ParseAfterMarker(pre, name, tail);
    assert tail[0] == checksum[0];
    assert TrimColons(tail) == tail;
    HexPrefixOfJoin(checksum, post);
    assert tail[..|checksum|] == checksum;
  }

  /** A kind name the checksum reader does not know gives no checksum. */
  lemma UnknownKindRejected(pre: String, kindName: String, post: String)
    requires '/' !in pre && ':' !in kindName
    requires ChecksumKindOf("CSK_" + kindName).None?
    ensures ParseChecksum(pre + "//__CSK_" + kindName + ":" + post).None?
  {
    var name := "CSK_" + kindName;
    assert pre + "//__CSK_" + kindName + ":" + post == MarkedText(pre, name, post);
    assert name[..4] == "CSK_";
    ParseAfterMarker(pre, name, post);
  }

  // -----------------------------------------------------------------------
  // Producer

  /** The text that marks the processed string naming the producer. */
  const ProducerPrefix: String := "Debug info producer: "
  const DefaultProducer: String := "spirv"

  /** No string of `ss` mentions the producer marker. */
  predicate NoProducer(ss: seq<String>) {
    forall k :: 0 <= k < |ss| ==> !Contains(ss[k], ProducerPrefix)
  }

  /** `findModuleProducer`: the first processed string that contains the
      marker, without its first |marker| characters; "spirv" if none does. */
  method FindModuleProducer(processed: seq<String>) returns (producer: String)
    ensures NoProducer(processed) ==> producer == DefaultProducer
    ensures forall k :: 0 <= k < |processed| && Contains(processed[k], ProducerPrefix)
                        && NoProducer(processed[..k])
                        ==> producer == processed[k][|ProducerPrefix|..]
  {
    var i := 0;
    while i < |processed|
      invariant 0 <= i <= |processed|
      invariant NoProducer(processed[..i])
    {
      var s := processed[i];
      if Find(s, ProducerPrefix, 0).Some? {
        forall k | 0 <= k < |processed| && Contains(processed[k], ProducerPrefix) && NoProducer(processed[..k])
          ensures k == i
        {
        }
        return s[|ProducerPrefix|..];
      }
      assert processed[..i + 1] == processed[..i] + [s];
      i := i + 1;
    }
    assert processed[..i] == processed;
    return DefaultProducer;
  }

  // -----------------------------------------------------------------------
  // Array and vector sizes

  /** An array subscript as the array-type reader classifies it: bounds given
      by a local variable or by expressions, `DebugInfoNone`, or a constant
      count. */
  datatype Subscript = VariableBounds | NoCount | ConstantCount(count: U64)

  /** The count's bits read back as a signed 64-bit value. */
  function AsSigned(v: U64): int {
    if v < 0x8000_0000_0000_0000 then v else v - Pow64
  }

  /** What a subscript contributes to the element total: a constant count
      that is positive as a signed value, else 0; other subscripts leave the
      total alone. */
  function Factor(s: Subscript): nat {
    match s
    case ConstantCount(v) => if AsSigned(v) > 0 then v else 0
    case _ => 1
  }

  /** The exact product of the factors. */
  function ElementCount(subs: seq<Subscript>): nat
    decreases |subs|
  {
    if subs == [] then 1 else ElementCount(subs[..|subs| - 1]) * Factor(subs[|subs| - 1])
  }

  lemma MulMod(a: nat, c: nat)
    ensures (a % Pow64 * c) % Pow64 == (a * c) % Pow64
  {
    var q := a / Pow64;
    var r := a % Pow64;
    assert a == q * Pow64 + r;
    assert a * c == (q * c) * Pow64 + r * c;
  }

  /** `TotalCount` in the array-type reader: the product of the factors in a
      64-bit `size_t`, which wraps around. */
  method TotalCount(subs: seq<Subscript>) returns (total: U64)
    ensures total == ElementCount(subs) % Pow64
  {
    total := 1;
    var i := 0;
    while i < |subs|
      invariant 0 <= i <= |subs|
      invariant total == ElementCount(subs[..i]) % Pow64
    {
      assert subs[..i + 1][..i] == subs[..i];
      MulMod(ElementCount(subs[..i]), Factor(subs[i]));
      total := (total * Factor(subs[i])) % Pow64;
      i := i + 1;
    }
    assert subs[..i] == subs;
  }

  /** The total is 0 exactly when some constant count is 0 or negative; a
      count of -1 marks an empty array. */
  lemma {:induction false} ElementCountZero(subs: seq<Subscript>)
    ensures ElementCount(subs) == 0 <==>
            exists k :: 0 <= k < |subs| && subs[k].ConstantCount? && AsSigned(subs[k].count) <= 0
    decreases |subs|
  {
    if subs != [] {
      var init := subs[..|subs| - 1];
      ElementCountZero(init);
      var last := subs[|subs| - 1];
      if ElementCount(subs) == 0 {
        if ElementCount(init) == 0 {
          var k :| 0 <= k < |init| && init[k].ConstantCount? && AsSigned(init[k].count) <= 0;
          assert subs[k] == init[k];
        } else {
          assert Factor(last) == 0;
        }
      } else {
        forall k | 0 <= k < |subs| && subs[k].ConstantCount?
          ensures AsSigned(subs[k].count) > 0
        {
          if k < |init| {
            assert subs[k] == init[k];
          } else {
            assert Factor(last) != 0;
          }
        }
      }
    }
  }

  /** The doubling search behind `bit_ceil`, from a power of two `p` that is
      not yet too large. */
  function BitCeilFrom(c: nat, p: nat): (r: nat)
    requires IsPowerOfTwo(p) && (p == 1 || p / 2 < c)
    ensures IsPowerOfTwo(r) && c <= r && (r == 1 || r / 2 < c)
    decreases c - p
  {
    if c <= p then p
    else
      assert IsPowerOfTwo(2 * p) && (2 * p) / 2 == p;
      BitCeilFrom(c, 2 * p)
  }


  /** `llvm::bit_ceil`: the smallest power of two not below `c` (1 for 0). */
  function BitCeil(c: nat): (r: nat)
    ensures IsPowerOfTwo(r) && c <= r
    ensures r == 1 || r / 2 < c
  {
    BitCeilFrom(c, 1)
  }

  /** `transTypeVector`: the size of a vector in bits is the base type's size
      times the component count rounded up to a power of two, in a 64-bit
      unsigned product. `bit_ceil` is undefined above the largest 32-bit
      power of two. */
  function VectorSize(baseBits: U64, count: U32): U64
    requires count <= 0x8000_0000
  {
    (baseBits * BitCeil(count)) % Pow64
  }

  /** The rounded count is less than twice the count. */
  lemma BitCeilBelowDouble(c: nat)
    requires c >= 1
    ensures BitCeil(c) <= 2 * c
  {
    var p := BitCeil(c);
    if p > 1 {
      assert p % 2 == 0;
    }
  }

  lemma MulMonotone(a: nat, x: nat, y: nat)
    requires x <= y
    ensures a * x <= a * y
  {
  }

  /** When the product does not wrap, a vector takes at least the room of its
      components and at most twice that; three components take the room of
      four. */
  lemma VectorSizeBounds(baseBits: U64, count: U32)
    requires 1 <= count <= 0x8000_0000 && baseBits * BitCeil(count) < Pow64
    ensures baseBits * count <= VectorSize(baseBits, count)
    ensures count == 3 ==> VectorSize(baseBits, count) == 4 * baseBits
    ensures VectorSize(baseBits, count) <= 2 * baseBits * count
  {
    VectorSizeExact(baseBits, count);
    BitCeilBelowDouble(count);
    Between(baseBits, count, BitCeil(count), VectorSize(baseBits, count));
    if count == 3 {
      BitCeilThree();
      assert baseBits * 4 == 4 * baseBits;
    }
  }

  /** Without wrap-around the size is the plain product. */
  lemma VectorSizeExact(baseBits: U64, count: U32)
    requires count <= 0x8000_0000 && baseBits * BitCeil(count) < Pow64
    ensures VectorSize(baseBits, count) == baseBits * BitCeil(count)
  {
    SmallMod(baseBits * BitCeil(count));
  }

  /** A value below 2^64 is its own residue. */
  lemma SmallMod(x: nat)
    requires x < Pow64
    ensures x % Pow64 == x
  {
  }

  /** A size `m` of `p` elements, with `p` between `c` and twice `c`, lies
      between the sizes of `c` and of twice `c` elements. */
  lemma Between(b: nat, c: nat, p: nat, m: nat)
    requires c <= p <= 2 * c && m == b * p
    ensures b * c <= m <= 2 * b * c
  {
    MulMonotone(b, c, p);
    MulMonotone(b, p, 2 * c);
    assert b * (2 * c) == 2 * b * c;
  }

  /** OpenCL's three-element vectors take the room of four elements. */
  lemma BitCeilThree()
    ensures BitCeil(3) == 4
  {
    assert BitCeilFrom(3, 1) == BitCeilFrom(3, 2) == BitCeilFrom(3, 4) == 4;
  }

  // -----------------------------------------------------------------------
  // Member access

  /** The access values of the debug info flags. */
  const FlagIsProtected: bv32 := 1
  const FlagIsPrivate: bv32 := 2
  const FlagIsPublic: bv32 := 3
  const FlagAccess: bv32 := 3

  datatype Access = NoAccess | Public | Protected | Private

  /** The member access chosen in `transTypeMemberOpenCL`: public when the
      access field says so, else protected if its bit is set, else private
      if its bit is set. */
  function AccessOf(flags: bv32): Access {
    if FlagAccess & flags == FlagIsPublic then Public
    else if flags & FlagIsProtected != 0 then Protected
    else if flags & FlagIsPrivate != 0 then Private
    else NoAccess
  }

  /** The encoding of each access value in the two-bit access field. */
  function AccessField(a: Access): (f: bv32)
    ensures f & FlagAccess == f
  {
    match a
    case NoAccess => 0
    case Protected => FlagIsProtected
    case Private => FlagIsPrivate
    case Public => FlagIsPublic
  }

  /** The choice depends on the access field alone and decodes it: reading
      the chosen access back gives the field, and every access is read from
      its own encoding whatever the other flags are. */
  lemma AccessDecodesField(flags: bv32, a: Access)
    ensures AccessField(AccessOf(flags)) == flags & FlagAccess
    ensures AccessOf((flags & !FlagAccess) | AccessField(a)) == a
  {
  }
}
