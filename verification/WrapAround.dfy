/**
 * The 64-bit sum of a position and a length (reader.rs, packed.rs). A build with overflow checks traps when it does
 * not fit, which the reader functions report as `Overflow`; a build without them wraps and can step backwards. This
 * module says exactly when the two builds differ, and which limits rule it out.
 */
module WrapAround {
  import opened Wrappers
  import opened WireBasics
  import opened WireTag
  import opened ReaderSpec
  import Varint
  import D = Descriptor
  import DC = DescriptorCodec
  import P = Packed
  import C = Scalars
  import M = MapEntry
  import UF = UnknownFields

  // ------------------------------------------------------------------------ both builds

  datatype Step = Moved(pos: nat) | TooFar | Trapped

  /** The test and the move of `advance` in a buffer of `size` bytes. */
  function Move(checks: bool, size: nat, pos: nat, n: nat): Step {
    var end := if checks then pos + n else (pos + n) % U64;
    if end >= U64 then Trapped else if end > size then TooFar else Moved(end)
  }

  /** The builds agree exactly when nothing traps; otherwise the unchecked one moves strictly backwards. */
  lemma BuildsAgree(size: nat, pos: nat, n: u64)
    requires pos <= size < U64
    ensures Move(false, size, pos, n) == Move(true, size, pos, n) <==> pos + n < U64
    ensures pos + n >= U64 ==> Move(true, size, pos, n) == Trapped
    ensures pos + n >= U64 ==> Move(false, size, pos, n) == Moved(pos + n - U64) && pos + n - U64 < pos
  {
  }

  /** Skipping a length-delimited value in either build. */
  function SkipBody(checks: bool, buf: bytes, pos: nat, limits: DecoderLimits): Step
    requires pos <= |buf|
  {
    match Varint.Decode(buf[pos..])
    case Failure(_) => TooFar
    case Success((len, n)) =>
      if !Within(limits.maxLengthDelimited, len) then TooFar else Move(checks, |buf|, pos + n, len)
  }

  /** The checked build is the one the reader functions describe. */
  lemma CheckedIsSkip(s: Cursor, buf: bytes)
    requires s.pos <= |buf| < U64 && s.rest == buf[s.pos..] && s.limits.maxBytes.None?
    ensures var (o, step) := (Skip(LengthDelimited, s), SkipBody(true, buf, s.pos, s.limits));
            match step
            case Moved(p) => o.Done? && o.next.pos == p
            case Trapped => Traps(o)
            case TooFar => o.Fail? && !Traps(o)
  {
    VarintNeverTraps(s.rest);
  }

  /** `DecoderLimits::unlimited()` */
  const UNLIMITED := DecoderLimits(None, U32 - 1, None, None, None, None)

  /** A length in ten bytes is read in either build. */
  lemma BodyStep(checks: bool, buf: bytes, pos: nat, limits: DecoderLimits, len: u64, tail: bytes)
    requires pos <= |buf| && buf[pos..] == Varint.Encode(len) + tail && Within(limits.maxLengthDelimited, len)
    ensures SkipBody(checks, buf, pos, limits) == Move(checks, |buf|, pos + |Varint.Encode(len)|, len)
  {
    hide Varint.Encode, Varint.Decode;
    Varint.RoundTrip(len, tail);
  }

  lemma TenBytes(v: u64)
    requires v >= U64 - 11
    ensures |Varint.Encode(v)| == 10
  {
    Varint.Pow128Ten();
    Varint.EncodeLength(v, 9);
    Varint.EncodeLength(v, 10);
  }

  /**
   * The length 2^64 - 1 alone, nine bytes FF and one 01: without a length limit it traps, or leaves the unchecked
   * reader one byte before the end of the length.
   */
  lemma LongestWraps()
    ensures var buf := Varint.Encode(U64 - 1);
            && SkipBody(true, buf, 0, UNLIMITED) == Trapped
            && SkipBody(false, buf, 0, UNLIMITED) == Moved(9)
            && Traps(Skip(LengthDelimited, Fresh(buf, UNLIMITED)))
  {
    hide Varint.Encode, SkipBody, SkipInner;
    var buf := Varint.Encode(U64 - 1);
    TenBytes(U64 - 1);
    assert buf[0..] == buf + [] && buf[0..] == buf;
    BodyStep(true, buf, 0, UNLIMITED, U64 - 1, []);
    BodyStep(false, buf, 0, UNLIMITED, U64 - 1, []);
    CheckedIsSkip(Fresh(buf, UNLIMITED), buf);
  }

  /** One byte of tag, of a field 15 that no descriptor message has, and the length 2^64 - 11. */
  function Treadmill(): bytes {
    [122] + Varint.Encode(U64 - 11)
  }

  /**
   * The unchecked build steps back from behind the length exactly onto the tag, so that `merge_from` meets the same
   * field again and again; the checked build traps.
   */
  lemma TreadmillLoops(k: D.Kind)
    ensures var buf := Treadmill();
            && DecodeTag(buf) == Success((Tag(15, LengthDelimited), 1))
            && D.ArmOf(k, Tag(15, LengthDelimited)) == D.SkipArm
            && SkipBody(false, buf, 1, UNLIMITED) == Moved(0)
            && SkipBody(true, buf, 1, UNLIMITED) == Trapped
            && Traps(DC.Merge(D.Default(k), Fresh(buf, UNLIMITED)))
  {
    hide DC.ReadArm, Varint.Encode, D.Put, SkipBody, SkipInner, DecodeTag, D.ArmOf, DC.Merge, Varint.Decode, D.Default;
    NoField15(k);
    var (buf, code) := (Treadmill(), Varint.Encode(U64 - 11));
    TenBytes(U64 - 11);
    assert buf[1..] == code && code + [] == code;
    BodyStep(true, buf, 1, UNLIMITED, U64 - 11, []);
    BodyStep(false, buf, 1, UNLIMITED, U64 - 11, []);
    TreadmillTag(code);
    var t := ReadTag(Fresh(buf, UNLIMITED)).next;
    assert t.rest == code && t.pos == 1;
    CheckedIsSkip(t, buf);
    hide Treadmill;
    FirstFieldTraps(D.Default(k), Fresh(buf, UNLIMITED));
  }

  /** A trap in the first field is a trap of the whole merge. */
  lemma FirstFieldTraps(m: D.Message, s: Cursor)
    requires s.rest != [] && ReadTag(s).Done? && D.ArmOf(D.KindOf(m), ReadTag(s).value) == D.SkipArm
    requires Traps(Skip(ReadTag(s).value.wire, ReadTag(s).next))
    ensures Traps(DC.Merge(m, s))
  {
    hide ReadTag, SkipInner, DC.ReadArm, D.Put, D.ArmOf;
    var t := ReadTag(s);
    assert DC.MergeField(m, t.value, t.next).Fail?;
  }

  lemma NoField15(k: D.Kind)
    ensures D.ArmOf(k, Tag(15, LengthDelimited)) == D.SkipArm
  {
  }

  lemma TagByte()
    ensures EncodeTag(Tag(15, LengthDelimited)) == [122]
  {
  }

  lemma TreadmillTag(code: bytes)
    ensures DecodeTag([122] + code) == Success((Tag(15, LengthDelimited), 1))
  {
    hide DecodeTag, EncodeTag;
    TagByte();
    TagRoundTrip(Tag(15, LengthDelimited), code);
  }

  // --------------------------------------------------------------- when nothing can trap

  ghost predicate Traps<T>(o: Out<T>) {
    o.Fail? && o.error == Overflow
  }

  /** The longest length prefix a reader under these limits goes on with. */
  function Longest(limits: DecoderLimits): u64 {
    if limits.maxLengthDelimited.None? || limits.maxLengthDelimited.value >= U64 then U64 - 1
    else limits.maxLengthDelimited.value
  }

  /** Wherever in its buffer the reader stands, no length it accepts makes the sum overflow. */
  predicate Safe(s: Cursor) {
    Longest(s.limits) + s.pos + |s.rest| < U64
  }

  lemma {:induction false} DecodeErrors(rest: bytes, k: nat, acc: nat)
    ensures Varint.DecodeFrom(rest, k, acc).Failure? ==> Varint.DecodeFrom(rest, k, acc).error != Overflow
    decreases |rest|
  {
    if rest != [] && 7 * k < 64 && rest[0] >= 128 {
      DecodeErrors(rest[1..], k + 1, (acc + rest[0] % 128 * Varint.Pow128(k)) % U64);
    }
  }

  lemma VarintNeverTraps(rest: bytes)
    ensures Varint.Decode(rest).Failure? ==> Varint.Decode(rest).error != Overflow
    ensures DecodeTag(rest).Failure? ==> DecodeTag(rest).error != Overflow
  {
    DecodeErrors(rest, 0, 0);
  }

  /** Reading a varint, a tag or a fixed-width value never traps, under any limits. */
  lemma FixedReadsNeverTrap(s: Cursor, n: nat)
    ensures !Traps(ReadVarint(s)) && !Traps(ReadVarintRaw(s)) && !Traps(ReadTag(s)) && !Traps(ReadFixed(s, n))
  {
    VarintNeverTraps(s.rest);
  }

  lemma SafeOnward(s: Cursor, t: Cursor)
    requires Safe(s) && Onward(s, t)
    ensures Safe(t)
  {
  }

  lemma BodyNeverTraps(s: Cursor)
    requires Safe(s)
    ensures !Traps(ReadLengthDelimited(s)) && !Traps(ReadString(s))
  {
    FixedReadsNeverTrap(s, 0);
  }

  lemma {:induction false} SkipInnerNeverTraps(wire: WireType, depth: nat, s: Cursor)
    requires Safe(s)
    ensures !Traps(SkipInner(wire, depth, s))
    decreases |s.rest|, 1
  {
    hide ReadVarint, ReadFixed;
    FixedReadsNeverTrap(s, 4);
    FixedReadsNeverTrap(s, 8);
    if wire.StartGroup? && depth + 1 <= s.limits.maxDepth { SkipGroupNeverTraps(depth + 1, s); }
  }

  lemma {:induction false} SkipGroupNeverTraps(childDepth: nat, s: Cursor)
    requires Safe(s)
    ensures !Traps(SkipGroup(childDepth, s))
    decreases |s.rest|, 0
  {
    hide ReadTag, SkipInner;
    FixedReadsNeverTrap(s, 0);
    if s.rest != [] && ReadTag(s).Done? && ReadTag(s).value.wire != EndGroup {
      var t := ReadTag(s);
      SafeOnward(s, t.next);
      SkipInnerNeverTraps(t.value.wire, childDepth, t.next);
      var v := SkipInner(t.value.wire, childDepth, t.next);
      if v.Done? {
        SafeOnward(t.next, v.next);
        SkipGroupNeverTraps(childDepth, v.next);
      }
    }
  }

  /** A body that was read is short enough for readers of its own, with these limits or the default ones. */
  lemma BodyIsSafe(s: Cursor, depth: nat)
    requires Safe(s) && ReadLengthDelimited(s).Done?
    ensures var body := ReadLengthDelimited(s).value;
            Safe(Cursor(0, body, depth, 0, 0, s.limits)) && Safe(Fresh(body, DEFAULT_LIMITS))
  {
    var body := ReadLengthDelimited(s).value;
    assert |body| <= Longest(s.limits) && |body| <= |s.rest|;
  }

  lemma {:induction false} MergeNeverTraps(m: D.Message, s: Cursor)
    requires Safe(s)
    ensures !Traps(DC.Merge(m, s))
    decreases |s.rest|
  {
    hide ReadTag, DC.MergeField;
    FixedReadsNeverTrap(s, 0);
    if s.rest != [] && ReadTag(s).Done? {
      var t := ReadTag(s);
      SafeOnward(s, t.next);
      FieldNeverTraps(m, t.value, t.next);
      var n := DC.MergeField(m, t.value, t.next);
      if n.Done? {
        SafeOnward(t.next, n.next);
        MergeNeverTraps(n.value, n.next);
      }
    }
  }

  lemma {:induction false} FieldNeverTraps(m: D.Message, tag: Tag, s: Cursor)
    requires Safe(s)
    ensures !Traps(DC.MergeField(m, tag, s))
    decreases |s.rest|, 1
  {
    hide DC.ReadArm, SkipInner, D.Put, D.Row;
    var arm := D.ArmOf(D.KindOf(m), tag);
    if arm == D.SkipArm { SkipInnerNeverTraps(tag.wire, s.depth, s); } else { ArmNeverTraps(arm, s); }
  }

  lemma {:induction false} ArmNeverTraps(arm: D.Arm, s: Cursor)
    requires arm != D.SkipArm && Safe(s)
    ensures !Traps(DC.ReadArm(arm, s))
    decreases |s.rest|, 0
  {
    hide ReadString, ReadLengthDelimited, ReadVarint, DC.Merge, Safe;
    FixedReadsNeverTrap(s, 0);
    BodyNeverTraps(s);
    if (arm.MessageArm? || arm.FreshArm?) && ReadLengthDelimited(s).Done? {
      var body := ReadLengthDelimited(s);
      BodyIsSafe(s, body.next.depth + 1);
      if arm.MessageArm? {
        MergeNeverTraps(D.Default(arm.kind), Cursor(0, body.value, body.next.depth + 1, 0, 0, s.limits));
      } else {
        MergeNeverTraps(D.Default(arm.kind), Fresh(body.value, DEFAULT_LIMITS));
      }
    }
  }

  /** Decoding a message never traps under such limits, so that every theorem about it holds of both builds. */
  lemma DecodeNeverTraps(k: D.Kind, input: bytes, limits: DecoderLimits)
    requires Longest(limits) + |input| < U64
    ensures DC.Decode(k, input, limits) != Failure(Overflow)
  {
    MergeNeverTraps(D.Default(k), Fresh(input, limits));
  }

  lemma {:induction false} CollectNeverTraps(s: Cursor, total: nat)
    requires Safe(s)
    ensures !Traps(UF.Collect(s, total))
    decreases |s.rest|
  {
    hide ReadTag, UF.ReadValue, UF.EncodeRecord;
    FixedReadsNeverTrap(s, 0);
    if s.rest != [] && ReadTag(s).Done? {
      var t := ReadTag(s);
      SafeOnward(s, t.next);
      ValueNeverTraps(t.value.wire, t.next);
      var r := UF.ReadRecord(s);
      if r.Done? {
        SafeOnward(s, r.next);
        CollectNeverTraps(r.next, total + |UF.EncodeRecord(r.value)|);
      }
    }
  }

  lemma ValueNeverTraps(wire: WireType, s: Cursor)
    requires Safe(s)
    ensures !Traps(UF.ReadValue(wire, s))
  {
    hide ReadLengthDelimited, ReadFixed, ReadVarint;
    FixedReadsNeverTrap(s, 4);
    FixedReadsNeverTrap(s, 8);
    BodyNeverTraps(s);
  }

  lemma {:induction false} ElementsNeverTrap(e: P.Element, s: Cursor)
    requires e.FixedElement? ==> e.width > 0
    ensures !Traps(P.ReadElements(e, s))
    decreases |s.rest|
  {
    hide ReadFixed, ReadVarint, C.FromVarint;
    FixedReadsNeverTrap(s, if e.FixedElement? then e.width else 0);
    if s.rest != [] && P.ReadOne(e, s).Done? { ElementsNeverTrap(e, P.ReadOne(e, s).next); }
  }

  lemma PackedNeverTraps(e: P.Element, s: Cursor)
    requires (e.FixedElement? ==> e.width > 0) && Safe(s)
    ensures !Traps(P.ReadPacked(e, s))
  {
    hide ReadLengthDelimited, P.ReadElements;
    BodyNeverTraps(s);
    if ReadLengthDelimited(s).Done? {
      var body := ReadLengthDelimited(s);
      ElementsNeverTrap(e, Cursor(0, body.value, body.next.depth + 1, 0, 0, body.next.limits));
    }
  }

  lemma RawValueNeverTraps(wire: WireType, s: Cursor)
    requires Safe(s)
    ensures var o := M.ReadRawValue(wire, s); !Traps(o) && (o.Done? ==> Safe(o.next))
  {
    FixedReadsNeverTrap(s, 4);
    FixedReadsNeverTrap(s, 8);
    hide Varint.Decode;
  }

  lemma {:induction false} FramesNeverTrap(f: M.Frames, s: Cursor)
    requires Safe(s)
    ensures !Traps(M.ReadFrames(f, s))
    decreases |s.rest|
  {
    hide ReadTag, M.ReadRawValue;
    FixedReadsNeverTrap(s, 0);
    if s.rest != [] && ReadTag(s).Done? {
      var t := ReadTag(s);
      SafeOnward(s, t.next);
      RawValueNeverTraps(t.value.wire, t.next);
      var v := M.ReadRawValue(t.value.wire, t.next);
      if v.Done? { FramesNeverTrap(M.Keep(f, t.value.field, v.value), v.next); }
    }
  }

  lemma MapEntryNeverTraps(s: Cursor)
    requires Safe(s)
    ensures !Traps(M.DecodeMapEntry(s))
  {
    hide ReadLengthDelimited, M.ReadFrames, Safe;
    BodyNeverTraps(s);
    if ReadLengthDelimited(s).Done? {
      var body := ReadLengthDelimited(s);
      BodyIsSafe(s, body.next.depth + 1);
      FramesNeverTrap(M.Frames(None, None), Cursor(0, body.value, body.next.depth + 1, 0, 0, s.limits));
    }
  }

  // ------------------------------------------------------------------ and never otherwise

  /** `v` in exactly `n` bytes: any value may be written with needless continuation bytes. */
  function Stretched(v: nat, n: nat): (s: bytes)
    requires n >= 1 && v < Varint.Pow128(n)
    ensures |s| == n && Varint.IsVarint(s) && Varint.Value(s) == v
  {
    if n == 1 then
      assert Varint.Pow128(1) == 128 * Varint.Pow128(0);
      assert [v][1..] == [];
      [v]
    else
      var rest := Stretched(v / 128, n - 1);
      var s := [v % 128 + 128] + rest;
      assert s[1..] == rest;
      s
  }

  /** A reader in a buffer of `size` bytes. */
  predicate In(s: Cursor, limits: DecoderLimits, size: nat) {
    s.limits == limits && s.pos + |s.rest| == size
  }

  /**
   * The exact condition. In buffers of `size` bytes no skip ever traps, from any place and of any wire type, if and
   * only if the longest accepted length and the size together stay below 2^64; without a length limit that is never so.
   */
  lemma TrapsIff(limits: DecoderLimits, size: nat)
    requires 10 <= size < U64 && Within(limits.maxBytes, 10)
    ensures (forall wire, s :: In(s, limits, size) ==> !Traps(Skip(wire, s))) <==> Longest(limits) + size < U64
  {
    if Longest(limits) + size < U64 {
      forall wire, s | In(s, limits, size)
        ensures !Traps(Skip(wire, s))
      {
        SkipInnerNeverTraps(wire, s.depth, s);
      }
    } else {
      var s := LastPlace(limits, size);
      assert In(s, limits, size) && Traps(Skip(LengthDelimited, s));
    }
  }

  /** The reader before a ten-byte length at the very end of its buffer. */
  lemma LastPlace(limits: DecoderLimits, size: nat) returns (s: Cursor)
    requires 10 <= size < U64 && Within(limits.maxBytes, 10) && Longest(limits) + size >= U64
    ensures In(s, limits, size) && Traps(Skip(LengthDelimited, s))
  {
    Varint.Pow128Ten();
    var code := Stretched(Longest(limits), 10);
    s := Cursor(size - 10, code, 0, 0, 0, limits);
    hide Stretched;
    DecodesWhole(code, Longest(limits));
    LengthTraps(s, Longest(limits));
  }

  lemma DecodesWhole(code: bytes, v: u64)
    requires Varint.IsVarint(code) && |code| <= Varint.MAX_VARINT_LEN && Varint.Value(code) == v
    ensures Varint.Decode(code) == Success((v, |code|))
  {
    hide Varint.Decode, Varint.Value;
    assert code[..|code|] == code && |code| > 0 && v % U64 == v;
    Varint.DecodeMeaning(code, v, |code|);
  }

  lemma LengthTraps(s: Cursor, len: u64)
    requires Varint.Decode(s.rest) == Success((len, |s.rest|)) && Within(s.limits.maxBytes, s.read + |s.rest|)
    requires Within(s.limits.maxLengthDelimited, len) && s.pos + |s.rest| + len >= U64 && s.pos + |s.rest| < U64
    ensures Traps(Skip(LengthDelimited, s))
  {
    hide Varint.Decode;
    assert ReadVarint(s) == Done(len, Eat(s, |s.rest|));
  }
}
