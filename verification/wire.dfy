/** The wire format of a pool's spec (pkg/apis/resource/v1alpha1/generated.pb.go), after the Protocol
    Buffers Encoding specification, "Base 128 Varints" and "Message Structure". */
module Wire {
  import opened Api
  import opened Integers

  type Byte = x: int | 0 <= x < 0x100

  const Uint64Limit := 0x1_0000_0000_0000_0000

  /** Strings are their bytes, and the label selector is its own encoding: an opaque sub-message, of
      which two in a row mean the same as their concatenation. */
  datatype Spec = Spec(nodeSelector: Option<seq<Byte>>, disablePreemption: bool, disableBorrowing: bool,
                       borrowingPools: seq<seq<Byte>>, disableSharing: bool)

  const Blank := Spec(None, false, false, [], false)

  /** Why parsing stops. `Panics` is no error value: an index out of range ends the call. */
  datatype WireError =
    | IntOverflow
    | UnexpectedEOF
    | InvalidLength
    | EndGroup
    | IllegalTag
    | WrongWireType
    | IllegalWireType
    | Panics

  datatype Parsed<+T> = Ok(value: T, next: nat) | Err(error: WireError)

  /** The bytes stand in the data at this position. */
  ghost predicate At(data: seq<Byte>, i: nat, bytes: seq<Byte>) {
    i + |bytes| <= |data| && data[i..i + |bytes|] == bytes
  }

  lemma AtSplit(data: seq<Byte>, i: nat, a: seq<Byte>, b: seq<Byte>)
    requires At(data, i, a + b)
    ensures At(data, i, a) && At(data, i + |a|, b)
  {
    var s := data[i..i + |a + b|];
    assert s[..|a|] == a && s[|a|..] == b;
    assert data[i..i + |a|] == s[..|a|] && data[i + |a|..i + |a| + |b|] == s[|a|..];
  }

  // ----- varints -----

  /** Seven bits a byte, lowest first; every byte but the last has its top bit set. */
  function VarintBytes(v: nat): (bytes: seq<Byte>)
    ensures |bytes| >= 1
  {
    if v < 0x80 then [v] else [v % 0x80 + 0x80] + VarintBytes(v / 0x80)
  }

  function Pow128(k: nat): (p: nat)
    ensures p >= 1
  {
    if k == 0 then 1 else 0x80 * Pow128(k - 1)
  }

  /** The value so far with seven more bits; a bit shifted out of 64 is lost. */
  function Joined(acc: nat, b: Byte, k: nat): nat {
    acc + b % 0x80 * Pow128(k) % Uint64Limit
  }

  /** Reads a varint from its byte `k` on, with the value so far. */
  function ReadVarint(data: seq<Byte>, i: nat, k: nat, acc: nat): (r: Parsed<nat>)
    ensures r.Ok? ==> i < r.next <= |data|
    decreases 10 - k
  {
    if k >= 10 then Err(IntOverflow)
    else if i >= |data| then Err(UnexpectedEOF)
    else if data[i] < 0x80 then Ok(Joined(acc, data[i], k), i + 1)
    else ReadVarint(data, i + 1, k + 1, Joined(acc, data[i], k))
  }

  /** The bits of the value so far lie below those of the next byte, so that joining them is adding,
      and the result is a 64-bit value. */
  lemma {:induction false} ReadVarintFits(data: seq<Byte>, i: nat, k: nat, acc: nat)
    requires k < 10 && acc < Pow128(k)
    ensures ReadVarint(data, i, k, acc).Ok? ==> ReadVarint(data, i, k, acc).value < Uint64Limit
    decreases 10 - k
  {
    hide Pow128, Joined;
    if i < |data| {
      JoinedFits(acc, data[i], k);
      if k < 9 && data[i] >= 0x80 {
        ReadVarintFits(data, i + 1, k + 1, Joined(acc, data[i], k));
      }
    }
  }

  lemma Powers()
    ensures Pow128(9) == MaxInt64 + 1
  {
    assert Pow128(3) == 0x20_0000;
    assert Pow128(6) == 0x400_0000_0000;
  }

  lemma {:induction false} PowersGrow(j: nat, k: nat)
    requires j <= k
    ensures Pow128(j) <= Pow128(k)
  {
    if j < k {
      PowersGrow(j, k - 1);
    }
  }

  lemma JoinedFits(acc: nat, b: Byte, k: nat)
    requires k < 10 && acc < Pow128(k)
    ensures Joined(acc, b, k) < Uint64Limit
    ensures k < 9 ==> Joined(acc, b, k) == acc + b % 0x80 * Pow128(k) < Pow128(k + 1)
  {
    hide Pow128, Joined;
    if k < 9 {
      JoinedBelow(acc, b, k);
    } else {
      JoinedLast(acc, b);
    }
  }

  lemma JoinedBelow(acc: nat, b: Byte, k: nat)
    requires k < 9 && acc < Pow128(k)
    ensures Joined(acc, b, k) == acc + b % 0x80 * Pow128(k) < Pow128(k + 1) < Uint64Limit
  {
    var p, d := Pow128(k), b % 0x80;
    PowersGrow(k + 1, 9);
    Powers();
    assert d * p <= 0x7f * p by { AtMost(d, 0x7f, p); }
  }

  lemma AtMost(d: nat, e: nat, p: nat)
    requires d <= e
    ensures d * p <= e * p
  {
    assert e * p == d * p + (e - d) * p;
  }

  /** Of the tenth byte only the lowest bit still fits. */
  lemma JoinedLast(acc: nat, b: Byte)
    requires acc < Pow128(9)
    ensures Joined(acc, b, 9) < Uint64Limit
  {
    Powers();
  }

  /** Decoding undoes encoding, for every unsigned 64-bit value. */
  lemma {:induction false} VarintReadsBack(data: seq<Byte>, i: nat, k: nat, acc: nat, v: nat)
    requires At(data, i, VarintBytes(v)) && k < 10 && acc < Pow128(k) && v * Pow128(k) < Uint64Limit
    ensures ReadVarint(data, i, k, acc) == Ok(acc + v * Pow128(k), i + |VarintBytes(v)|)
    decreases v
  {
    hide Pow128, Joined;
    assert data[i] == VarintBytes(v)[0] by { assert data[i..i + |VarintBytes(v)|][0] == data[i]; }
    if v >= 0x80 {
      RoomForMore(v, k);
      AtSplit(data, i, [v % 0x80 + 0x80], VarintBytes(v / 0x80));
      JoinedFits(acc, data[i], k);
      VarintReadsBack(data, i + 1, k + 1, Joined(acc, data[i], k), v / 0x80);
    } else {
      LastByte(acc, v, k);
    }
  }

  lemma LastByte(acc: nat, v: Byte, k: nat)
    requires v < 0x80 && v * Pow128(k) < Uint64Limit
    ensures Joined(acc, v, k) == acc + v * Pow128(k)
  {
    hide Pow128;
    assert v % 0x80 == v;
  }

  lemma RoomForMore(v: nat, k: nat)
    requires v >= 0x80 && k < 10 && v * Pow128(k) < Uint64Limit
    ensures k < 9 && v * Pow128(k) == v % 0x80 * Pow128(k) + v / 0x80 * Pow128(k + 1)
    ensures v / 0x80 * Pow128(k + 1) < Uint64Limit
  {
    Powers();
    var p := Pow128(k);
    assert v == v % 0x80 + 0x80 * (v / 0x80);
    assert v * p == v % 0x80 * p + v / 0x80 * (0x80 * p);
  }

  lemma VarintRoundTrip(v: nat)
    requires v < Uint64Limit
    ensures ReadVarint(VarintBytes(v), 0, 0, 0) == Ok(v, |VarintBytes(v)|)
  {
    VarintReadsBack(VarintBytes(v), 0, 0, 0, v);
  }

  /** encodeVarintGenerated. */
  method EncodeVarint(a: array<Byte>, offset: nat, value: nat) returns (next: nat)
    requires offset + |VarintBytes(value)| <= a.Length
    modifies a
    ensures next == offset + |VarintBytes(value)| && a[..next] == old(a[..offset]) + VarintBytes(value)
  {
    var v: nat, i: nat := value, offset;
    ghost var all := a[..offset] + VarintBytes(value);
    while v >= 0x80
      invariant i + |VarintBytes(v)| == offset + |VarintBytes(value)|
      invariant a[..i] + VarintBytes(v) == all
    {
      ghost var before := a[..i];
      a[i] := v % 0x80 + 0x80;
      assert a[..i + 1] == before + [v % 0x80 + 0x80];
      assert before + VarintBytes(v) == before + [v % 0x80 + 0x80] + VarintBytes(v / 0x80);
      v, i := v / 0x80, i + 1;
    }
    ghost var before := a[..i];
    a[i] := v;
    assert a[..i + 1] == before + [v];
    next := i + 1;
  }

  /** sovGenerated: the exact length of the encoding. */
  method Sov(value: nat) returns (n: nat)
    ensures n == |VarintBytes(value)|
  {
    n := 1;
    var x: nat := value / 0x80;
    while x != 0
      invariant n + (if x == 0 then 0 else |VarintBytes(x)|) == |VarintBytes(value)|
    {
      n := n + 1;
      x := x / 0x80;
    }
  }

  /** The loop of DecodeVarint that Unmarshal repeats for every tag, length and flag. */
  method DecodeVarint(data: seq<Byte>, start: nat) returns (r: Parsed<nat>)
    ensures r == ReadVarint(data, start, 0, 0)
    ensures r.Ok? ==> r.value < Uint64Limit
  {
    hide Pow128, Joined;
    ghost var all := ReadVarint(data, start, 0, 0);
    PowerOfNone();
    ReadVarintFits(data, start, 0, 0);
    var shift: nat, i: nat, v: nat := 0, start, 0;
    while true
      invariant shift % 7 == 0 && ReadVarint(data, i, shift / 7, v) == all
      decreases 100 - shift
    {
      if shift >= 64 {
        return Err(IntOverflow);
      }
      if i >= |data| {
        return Err(UnexpectedEOF);
      }
      var b := data[i];
      i := i + 1;
      v := Joined(v, b, shift / 7);
      if b < 0x80 {
        break;
      }
      shift := shift + 7;
    }
    r := Ok(v, i);
  }

  lemma PowerOfNone()
    ensures Pow128(0) == 1
  {
  }

  // ----- marshalling -----

  function Flag(b: bool): Byte { if b then 1 else 0 }

  function BytesField(tag: Byte, bytes: seq<Byte>): seq<Byte> { [tag] + VarintBytes(|bytes|) + bytes }

  function SelectorField(selector: Option<seq<Byte>>): seq<Byte> {
    if selector.None? then [] else BytesField(0x0a, selector.value)
  }

  function PoolFields(pools: seq<seq<Byte>>, k: nat): seq<Byte>
    requires k <= |pools|
  {
    if k == 0 then [] else PoolFields(pools, k - 1) + BytesField(0x22, pools[k - 1])
  }

  /** What PoolSpec.Marshal produces. */
  function Encode(m: Spec): seq<Byte> {
    SelectorField(m.nodeSelector) + [0x10, Flag(m.disablePreemption)] + [0x18, Flag(m.disableBorrowing)]
    + PoolFields(m.borrowingPools, |m.borrowingPools|) + [0x28, Flag(m.disableSharing)]
  }

  /** PoolSpec.Size: exactly the bytes written. */
  method Size(m: Spec) returns (n: nat)
    ensures n == |Encode(m)|
  {
    hide VarintBytes;
    n := 0;
    if m.nodeSelector.Some? {
      var l := |m.nodeSelector.value|;
      var s := Sov(l);
      n := n + 1 + l + s;
    }
    n := n + 2;
    n := n + 2;
    ghost var start := n;
    for k := 0 to |m.borrowingPools|
      invariant n == start + |PoolFields(m.borrowingPools, k)|
    {
      var l := |m.borrowingPools[k]|;
      var s := Sov(l);
      n := n + 1 + l + s;
    }
    n := n + 2;
  }

  method Put(a: array<Byte>, i: nat, b: Byte) returns (next: nat)
    requires i < a.Length
    modifies a
    ensures next == i + 1 && a[..next] == old(a[..i]) + [b]
  {
    a[i] := b;
    next := i + 1;
  }

  method PutBytes(a: array<Byte>, i: nat, bytes: seq<Byte>) returns (next: nat)
    requires i + |bytes| <= a.Length
    modifies a
    ensures next == i + |bytes| && a[..next] == old(a[..i]) + bytes
  {
    for k := 0 to |bytes|
      invariant a[..i + k] == old(a[..i]) + bytes[..k]
    {
      a[i + k] := bytes[k];
    }
    next := i + |bytes|;
  }

  method PutField(a: array<Byte>, start: nat, tag: Byte, bytes: seq<Byte>) returns (next: nat)
    requires start + |BytesField(tag, bytes)| <= a.Length
    modifies a
    ensures next == start + |BytesField(tag, bytes)| && a[..next] == old(a[..start]) + BytesField(tag, bytes)
  {
    hide VarintBytes;
    next := Put(a, start, tag);
    next := EncodeVarint(a, next, |bytes|);
    next := PutBytes(a, next, bytes);
  }

  method PutFlag(a: array<Byte>, start: nat, tag: Byte, b: bool) returns (next: nat)
    requires start + 2 <= a.Length
    modifies a
    ensures next == start + 2 && a[..next] == old(a[..start]) + [tag, Flag(b)]
  {
    next := Put(a, start, tag);
    next := Put(a, next, if b then 1 else 0);
  }

  method PutPools(a: array<Byte>, start: nat, pools: seq<seq<Byte>>) returns (next: nat)
    requires start + |PoolFields(pools, |pools|)| <= a.Length
    modifies a
    ensures next == start + |PoolFields(pools, |pools|)| && a[..next] == old(a[..start]) + PoolFields(pools, |pools|)
  {
    hide BytesField;
    next := start;
    for k := 0 to |pools|
      invariant next == start + |PoolFields(pools, k)| && next <= a.Length
      invariant a[..next] == old(a[..start]) + PoolFields(pools, k)
    {
      PoolFieldsGrow(pools, k + 1, |pools|);
      next := PutField(a, next, 0x22, pools[k]);
    }
  }

  /** PoolSpec.MarshalTo: into a buffer that is long enough. */
  method MarshalTo(m: Spec, a: array<Byte>) returns (n: nat)
    requires |Encode(m)| <= a.Length
    modifies a
    ensures n == |Encode(m)| && a[..n] == Encode(m)
  {
    hide BytesField, PoolFields, Flag;
    n := 0;
    if m.nodeSelector.Some? {
      n := PutField(a, n, 0x0a, m.nodeSelector.value);
    }
    assert a[..n] == SelectorField(m.nodeSelector);
    n := PutFlag(a, n, 0x10, m.disablePreemption);
    n := PutFlag(a, n, 0x18, m.disableBorrowing);
    n := PutPools(a, n, m.borrowingPools);
    n := PutFlag(a, n, 0x28, m.disableSharing);
  }

  lemma {:induction false} PoolFieldsGrow(pools: seq<seq<Byte>>, j: nat, k: nat)
    requires j <= k <= |pools|
    ensures |PoolFields(pools, j)| <= |PoolFields(pools, k)|
  {
    if j < k {
      PoolFieldsGrow(pools, j, k - 1);
    }
  }

  /** PoolSpec.Marshal: a buffer of Size bytes is filled completely. */
  method Marshal(m: Spec) returns (data: seq<Byte>)
    ensures data == Encode(m)
  {
    hide Encode;
    var size := Size(m);
    var a := new Byte[size](_ => 0);
    var n := MarshalTo(m, a);
    data := a[..n];
  }

  // ----- unmarshalling -----

  /** Conversion to a signed 32-bit value. */
  function Int32(x: nat): int {
    var y := x % 0x1_0000_0000;
    if y < 0x8000_0000 then y else y - 0x1_0000_0000
  }

  /** Where skipGenerated ends up: past a field, perhaps beyond the data; with an index that wrapped
      around to a negative one; or with an error. */
  datatype Skipped = Past(next: nat) | Wrapped | Fails(error: WireError)

  /** An index relative to `b`, computed in 64 bits, that is not at fault for the caller. */
  predicate Overflows(b: nat, next: nat) { next - b > MaxInt64 }

  /** skipGenerated on the data from `b` on. Positions are absolute here; what the code computes is
      relative to `b`. */
  function Skip(data: seq<Byte>, b: nat): (r: Skipped)
    ensures r.Past? ==> b < r.next && !Overflows(b, r.next)
    decreases if b <= |data| then |data| - b else 0, 0
  {
    match ReadVarint(data, b, 0, 0)
    case Err(e) => Fails(e)
    case Ok(wire, j) =>
      var wireType := wire % 8;
      if wireType == 0 then SkipVarint(data, b, j)
      else if wireType == 1 then PastTo(b, j + 8)
      else if wireType == 2 then SkipBytes(data, b, j)
      else if wireType == 3 then SkipGroup(data, b, j)
      else if wireType == 4 then PastTo(b, j)
      else if wireType == 5 then PastTo(b, j + 4)
      else Fails(IllegalWireType)
  }

  function PastTo(b: nat, next: nat): Skipped {
    if Overflows(b, next) then Wrapped else Past(next)
  }

  function SkipVarint(data: seq<Byte>, b: nat, i: nat): (r: Skipped)
    requires b < i
    ensures r.Past? ==> b < r.next && !Overflows(b, r.next)
  {
    match ReadVarint(data, i, 0, 0)
    case Err(e) => Fails(e)
    case Ok(_, j) => PastTo(b, j)
  }

  function SkipBytes(data: seq<Byte>, b: nat, i: nat): (r: Skipped)
    requires b < i
    ensures r.Past? ==> b < r.next && !Overflows(b, r.next)
  {
    match ReadVarint(data, i, 0, 0)
    case Err(e) => Fails(e)
    case Ok(length, j) => if length > MaxInt64 then Fails(InvalidLength) else PastTo(b, j + length)
  }

  /** Past the fields of a group, up to and including its end mark. A negative index is used to read
      the next tag; it stays negative when the place of the group is added, as no slice comes near
      2^62 bytes. */
  function SkipGroup(data: seq<Byte>, b: nat, i: nat): (r: Skipped)
    requires b < i
    ensures r.Past? ==> b < r.next && !Overflows(b, r.next)
    decreases if i <= |data| then |data| - i else 0, 1
  {
    match ReadVarint(data, i, 0, 0)
    case Err(e) => Fails(e)
    case Ok(wire, j) =>
      if wire % 8 == 4 then PastTo(b, j)
      else
        match Skip(data, i)
        case Fails(e) => Fails(e)
        case Wrapped => Fails(Panics)
        case Past(next) => if Overflows(b, next) then Fails(Panics) else SkipGroup(data, b, next)
  }

  /** A length and that many bytes. An end that wraps around is not beyond the data, and slicing there
      panics. */
  function ReadBytes(data: seq<Byte>, i: nat): (r: Parsed<seq<Byte>>)
    ensures r.Ok? ==> i < r.next <= |data|
  {
    match ReadVarint(data, i, 0, 0)
    case Err(e) => Err(e)
    case Ok(length, j) =>
      if length > MaxInt64 then Err(InvalidLength)
      else if Overflows(0, j + length) then Err(Panics)
      else if j + length > |data| then Err(UnexpectedEOF)
      else Ok(data[j..j + length], j + length)
  }

  function Merged(base: Option<seq<Byte>>, more: seq<Byte>): Option<seq<Byte>> {
    Some((if base.Some? then base.value else []) + more)
  }

  /** What the label selector's own unmarshalling says of its bytes: an error, a panic, or none. */
  type Inner = seq<Byte> -> Option<WireError>

  /** One round of PoolSpec.Unmarshal: the message with the field at `i`. */
  function ParseField(inner: Inner, data: seq<Byte>, i: nat, m: Spec): (r: Parsed<Spec>)
    ensures r.Ok? ==> i < r.next <= |data|
  {
    match ReadVarint(data, i, 0, 0)
    case Err(e) => Err(e)
    case Ok(wire, j) => ParseValue(inner, data, i, j, Int32(wire / 8), wire % 8, m)
  }

  function ParseValue(inner: Inner, data: seq<Byte>, i: nat, j: nat, fieldNum: int, wireType: nat, m: Spec)
    : (r: Parsed<Spec>)
    requires i < j
    ensures r.Ok? ==> i < r.next <= |data|
  {
    if wireType == 4 then Err(EndGroup)
    else if fieldNum <= 0 then Err(IllegalTag)
    else if fieldNum == 1 || fieldNum == 4 then
      if wireType != 2 then Err(WrongWireType)
      else
        match ReadBytes(data, j)
        case Err(e) => Err(e)
        case Ok(bytes, k) =>
          if fieldNum == 1 && inner(bytes).Some? then Err(inner(bytes).value) else Ok(WithBytes(m, fieldNum, bytes), k)
    else if fieldNum == 2 || fieldNum == 3 || fieldNum == 5 then
      if wireType != 0 then Err(WrongWireType)
      else
        match ReadVarint(data, j, 0, 0)
        case Err(e) => Err(e)
        case Ok(v, k) => Ok(WithFlag(m, fieldNum, v != 0), k)
    else
      match Skip(data, i)
      case Fails(e) => Err(e)
      case Wrapped => Err(InvalidLength)
      case Past(k) =>
        if Overflows(0, k) then Err(Panics) else if k > |data| then Err(UnexpectedEOF) else Ok(m, k)
  }

  function WithFlag(m: Spec, fieldNum: int, b: bool): Spec {
    if fieldNum == 2 then m.(disablePreemption := b)
    else if fieldNum == 3 then m.(disableBorrowing := b)
    else m.(disableSharing := b)
  }

  function WithBytes(m: Spec, fieldNum: int, bytes: seq<Byte>): Spec {
    if fieldNum == 1 then m.(nodeSelector := Merged(m.nodeSelector, bytes))
    else m.(borrowingPools := m.borrowingPools + [bytes])
  }

  /** PoolSpec.Unmarshal from position `i` on. */
  function Parse(inner: Inner, data: seq<Byte>, i: nat, m: Spec): Parsed<Spec>
    requires i <= |data|
    decreases |data| - i
  {
    if i == |data| then Ok(m, i)
    else
      match ParseField(inner, data, i, m)
      case Err(e) => Err(e)
      case Ok(n, j) => Parse(inner, data, j, n)
  }

  method UnmarshalField(inner: Inner, data: seq<Byte>, start: nat, before: Spec) returns (r: Parsed<Spec>)
    requires |data| <= MaxInt64 && start <= |data|
    ensures r == ParseField(inner, data, start, before)
  {
    hide ReadVarint, Skip, Int32, Wrap64;
    var m := before;
    var tag := DecodeVarint(data, start);
    if tag.Err? {
      return Err(tag.error);
    }
    var fieldNum, wireType, i := Int32(tag.value / 8), tag.value % 8, tag.next;
    if wireType == 4 {
      return Err(EndGroup);
    }
    if fieldNum <= 0 {
      return Err(IllegalTag);
    }
    match fieldNum {
      case 1 =>
        if wireType != 2 {
          return Err(WrongWireType);
        }
        r := UnmarshalBytes(inner, data, i, m, fieldNum);
      case 4 =>
        if wireType != 2 {
          return Err(WrongWireType);
        }
        r := UnmarshalBytes(inner, data, i, m, fieldNum);
      case 2 =>
        if wireType != 0 {
          return Err(WrongWireType);
        }
        r := UnmarshalFlag(data, i, m, fieldNum);
      case 3 =>
        if wireType != 0 {
          return Err(WrongWireType);
        }
        r := UnmarshalFlag(data, i, m, fieldNum);
      case 5 =>
        if wireType != 0 {
          return Err(WrongWireType);
        }
        r := UnmarshalFlag(data, i, m, fieldNum);
      case _ =>
        var skipped := Skip(data, start);
        if skipped.Fails? {
          return Err(skipped.error);
        }
        if skipped.Wrapped? {
          return Err(InvalidLength);
        }
        if skipped.next > MaxInt64 {
          WrapsDown(skipped.next);
        }
        var end := Wrap64(start + (skipped.next - start));
        if end > |data| {
          return Err(UnexpectedEOF);
        }
        if end < 0 {
          return Err(Panics);
        }
        r := Ok(m, end);
    }
  }

  method UnmarshalBytes(inner: Inner, data: seq<Byte>, start: nat, m: Spec, fieldNum: int) returns (r: Parsed<Spec>)
    requires |data| <= MaxInt64 && (fieldNum == 1 || fieldNum == 4)
    ensures r == match ReadBytes(data, start)
                 case Err(e) => Err(e)
                 case Ok(bytes, k) =>
                   if fieldNum == 1 && inner(bytes).Some? then Err(inner(bytes).value)
                   else Ok(WithBytes(m, fieldNum, bytes), k)
  {
    var length := DecodeVarint(data, start);
    if length.Err? {
      return Err(length.error);
    }
    if length.value > MaxInt64 {
      return Err(InvalidLength);
    }
    var i, postIndex := length.next, Wrap64(length.next + length.value);
    if length.next + length.value > MaxInt64 {
      WrapsDown(length.next + length.value);
    }
    if postIndex > |data| {
      return Err(UnexpectedEOF);
    }
    if postIndex < i {
      return Err(Panics);
    }
    if fieldNum == 1 {
      var refused := inner(data[i..postIndex]);
      if refused.Some? {
        return Err(refused.value);
      }
      var selector := if m.nodeSelector.Some? then m.nodeSelector.value else [];
      r := Ok(m.(nodeSelector := Some(selector + data[i..postIndex])), postIndex);
    } else {
      r := Ok(m.(borrowingPools := m.borrowingPools + [data[i..postIndex]]), postIndex);
    }
  }

  method UnmarshalFlag(data: seq<Byte>, start: nat, m: Spec, fieldNum: int) returns (r: Parsed<Spec>)
    requires fieldNum == 2 || fieldNum == 3 || fieldNum == 5
    ensures r == match ReadVarint(data, start, 0, 0)
                 case Err(e) => Err(e)
                 case Ok(v, k) => Ok(WithFlag(m, fieldNum, v != 0), k)
  {
    var v := DecodeVarint(data, start);
    if v.Err? {
      return Err(v.error);
    }
    match fieldNum {
      case 2 => r := Ok(m.(disablePreemption := v.value != 0), v.next);
      case 3 => r := Ok(m.(disableBorrowing := v.value != 0), v.next);
      case _ => r := Ok(m.(disableSharing := v.value != 0), v.next);
    }
  }

  /** PoolSpec.Unmarshal into a blank message. */
  method Unmarshal(inner: Inner, data: seq<Byte>) returns (r: Parsed<Spec>)
    requires |data| <= MaxInt64
    ensures r == Parse(inner, data, 0, Blank)
  {
    hide ParseField;
    var m: Spec, i: nat := Blank, 0;
    while i < |data|
      invariant i <= |data| && Parse(inner, data, i, m) == Parse(inner, data, 0, Blank)
    {
      var field := UnmarshalField(inner, data, i, m);
      if field.Err? {
        return Err(field.error);
      }
      m, i := field.value, field.next;
    }
    r := Ok(m, i);
  }

  // ----- the round trip -----

  /** The selector's bytes are an encoding, as those that marshalling writes are. */
  predicate Accepted(inner: Inner, m: Spec) { m.nodeSelector.Some? ==> inner(m.nodeSelector.value).None? }

  /** The length of the encoding is that of a Go slice. */
  predicate Representable(m: Spec) { |Encode(m)| <= MaxInt64 }

  /** What a message becomes when another is parsed onto it. */
  function Merge(base: Spec, m: Spec): Spec {
    Spec(if m.nodeSelector.Some? then Merged(base.nodeSelector, m.nodeSelector.value) else base.nodeSelector,
         m.disablePreemption, m.disableBorrowing, base.borrowingPools + m.borrowingPools, m.disableSharing)
  }

  lemma SmallVarint(data: seq<Byte>, i: nat, b: Byte)
    requires i < |data| && data[i] == b < 0x80
    ensures ReadVarint(data, i, 0, 0) == Ok(b, i + 1)
  {
    assert Pow128(0) == 1;
  }

  /** A field that is parsed, and the parsing goes on after it. */
  lemma Continues(inner: Inner, data: seq<Byte>, i: nat, m: Spec, n: Spec, j: nat)
    requires i < |data| && ParseField(inner, data, i, m) == Ok(n, j)
    ensures j <= |data| && Parse(inner, data, i, m) == Parse(inner, data, j, n)
  {
    hide ParseField;
  }

  /** A tag gives its field's number and kind back. */
  lemma TagParts(fieldNum: nat, wireType: nat)
    requires fieldNum < 0x2000_0000 && wireType < 8
    ensures Int32((fieldNum * 8 + wireType) / 8) == fieldNum && (fieldNum * 8 + wireType) % 8 == wireType
  {
    assert (fieldNum * 8 + wireType) / 8 == fieldNum;
  }

  lemma ParsesFlag(inner: Inner, data: seq<Byte>, i: nat, m: Spec, fieldNum: nat, b: bool)
    requires fieldNum == 2 || fieldNum == 3 || fieldNum == 5
    requires At(data, i, [fieldNum * 8, Flag(b)])
    ensures Parse(inner, data, i, m) == Parse(inner, data, i + 2, WithFlag(m, fieldNum, b))
  {
    hide ReadVarint, Parse, Int32, ReadBytes, Skip, WithFlag;
    assert data[i..i + 2][0] == fieldNum * 8 && data[i..i + 2][1] == Flag(b);
    SmallVarint(data, i, fieldNum * 8);
    SmallVarint(data, i + 1, Flag(b));
    TagParts(fieldNum, 0);
    assert (Flag(b) != 0) == b;
    Continues(inner, data, i, m, WithFlag(m, fieldNum, b), i + 2);
  }

  lemma ParsesBytes(inner: Inner, data: seq<Byte>, i: nat, m: Spec, fieldNum: nat, bytes: seq<Byte>)
    requires (fieldNum == 4 || (fieldNum == 1 && inner(bytes).None?)) && |data| <= MaxInt64
    requires At(data, i, BytesField(fieldNum * 8 + 2, bytes))
    ensures Parse(inner, data, i, m)
      == Parse(inner, data, i + |BytesField(fieldNum * 8 + 2, bytes)|, WithBytes(m, fieldNum, bytes))
  {
    hide ReadVarint, VarintBytes, Skip, Parse, Int32, WithBytes, At;
    var tag: Byte := fieldNum * 8 + 2;
    var length := VarintBytes(|bytes|);
    AtSplit(data, i, [tag] + length, bytes);
    AtSplit(data, i, [tag], length);
    AtOne(data, i, tag);
    SmallVarint(data, i, tag);
    TagParts(fieldNum, 2);
    LengthReadsBack(data, i + 1, bytes);
    Continues(inner, data, i, m, WithBytes(m, fieldNum, bytes), i + 1 + |length| + |bytes|);
  }

  lemma AtOne(data: seq<Byte>, i: nat, b: Byte)
    requires At(data, i, [b])
    ensures i < |data| && data[i] == b
  {
    assert data[i..i + 1][0] == b;
  }

  /** A length and its bytes are read back. */
  lemma LengthReadsBack(data: seq<Byte>, i: nat, bytes: seq<Byte>)
    requires |data| <= MaxInt64 && At(data, i, VarintBytes(|bytes|))
    requires At(data, i + |VarintBytes(|bytes|)|, bytes)
    ensures ReadVarint(data, i, 0, 0) == Ok(|bytes|, i + |VarintBytes(|bytes|)|)
    ensures ReadBytes(data, i) == Ok(bytes, i + |VarintBytes(|bytes|)| + |bytes|)
  {
    hide ReadVarint, VarintBytes;
    PowerOfNone();
    VarintReadsBack(data, i, 0, 0, |bytes|);
  }

  lemma {:induction false} ParsesPools(inner: Inner, data: seq<Byte>, i: nat, m: Spec, pools: seq<seq<Byte>>, k: nat)
    requires k <= |pools| && |data| <= MaxInt64 && At(data, i, PoolFields(pools, k))
    ensures Parse(inner, data, i, m)
      == Parse(inner, data, i + |PoolFields(pools, k)|, m.(borrowingPools := m.borrowingPools + pools[..k]))
  {
    hide Parse, BytesField;
    if k > 0 {
      AtSplit(data, i, PoolFields(pools, k - 1), BytesField(0x22, pools[k - 1]));
      ParsesPools(inner, data, i, m, pools, k - 1);
      var n := m.(borrowingPools := m.borrowingPools + pools[..k - 1]);
      ParsesBytes(inner, data, i + |PoolFields(pools, k - 1)|, n, 4, pools[k - 1]);
      assert n.borrowingPools + [pools[k - 1]] == m.borrowingPools + pools[..k];
    } else {
      assert m.borrowingPools + pools[..0] == m.borrowingPools;
    }
  }

  lemma EncodingParts(data: seq<Byte>, i: nat, m: Spec)
    requires At(data, i, Encode(m))
    ensures var j := i + |SelectorField(m.nodeSelector)|;
      var pools := PoolFields(m.borrowingPools, |m.borrowingPools|);
      && At(data, i, SelectorField(m.nodeSelector)) && At(data, j, [0x10, Flag(m.disablePreemption)])
      && At(data, j + 2, [0x18, Flag(m.disableBorrowing)]) && At(data, j + 4, pools)
      && At(data, j + 4 + |pools|, [0x28, Flag(m.disableSharing)]) && i + |Encode(m)| == j + 4 + |pools| + 2 <= |data|
  {
    hide Flag, SelectorField, PoolFields;
    var sel, one, two :=
      SelectorField(m.nodeSelector), [0x10, Flag(m.disablePreemption)], [0x18, Flag(m.disableBorrowing)];
    var pools, five := PoolFields(m.borrowingPools, |m.borrowingPools|), [0x28, Flag(m.disableSharing)];
    AtSplit(data, i, sel + one + two + pools, five);
    AtSplit(data, i, sel + one + two, pools);
    AtSplit(data, i, sel + one, two);
    AtSplit(data, i, sel, one);
  }

  lemma ParsesSelector(inner: Inner, data: seq<Byte>, i: nat, base: Spec, m: Spec)
    requires |data| <= MaxInt64 && At(data, i, SelectorField(m.nodeSelector)) && Accepted(inner, m)
    ensures Parse(inner, data, i, base)
      == Parse(inner, data, i + |SelectorField(m.nodeSelector)|, base.(nodeSelector := Merge(base, m).nodeSelector))
  {
    hide Parse, BytesField;
    if m.nodeSelector.Some? {
      ParsesBytes(inner, data, i, base, 1, m.nodeSelector.value);
    } else {
      assert base == base.(nodeSelector := Merge(base, m).nodeSelector);
    }
  }

  /** Parsing an encoding anywhere in the data merges the encoded message and goes on after it. */
  lemma ParsesEncoding(inner: Inner, data: seq<Byte>, i: nat, base: Spec, m: Spec)
    requires |data| <= MaxInt64 && At(data, i, Encode(m)) && Accepted(inner, m)
    ensures Parse(inner, data, i, base) == Parse(inner, data, i + |Encode(m)|, Merge(base, m))
  {
    hide Parse, PoolFields, Flag, At, SelectorField, Encode;
    EncodingParts(data, i, m);
    var j, pools := i + |SelectorField(m.nodeSelector)|, PoolFields(m.borrowingPools, |m.borrowingPools|);
    var m1 := base.(nodeSelector := Merge(base, m).nodeSelector);
    ParsesSelector(inner, data, i, base, m);
    var m2 := m1.(disablePreemption := m.disablePreemption);
    ParsesFlag(inner, data, j, m1, 2, m.disablePreemption);
    var m3 := m2.(disableBorrowing := m.disableBorrowing);
    ParsesFlag(inner, data, j + 2, m2, 3, m.disableBorrowing);
    ParsesPools(inner, data, j + 4, m3, m.borrowingPools, |m.borrowingPools|);
    assert m.borrowingPools[..|m.borrowingPools|] == m.borrowingPools;
    var m4 := m3.(borrowingPools := m3.borrowingPools + m.borrowingPools);
    ParsesFlag(inner, data, j + 4 + |pools|, m4, 5, m.disableSharing);
    assert m4.(disableSharing := m.disableSharing) == Merge(base, m);
  }

  /** Unmarshalling what was marshalled gives the spec back. */
  lemma RoundTrip(inner: Inner, m: Spec)
    requires Representable(m) && Accepted(inner, m)
    ensures Parse(inner, Encode(m), 0, Blank) == Ok(m, |Encode(m)|)
  {
    hide Encode;
    assert Encode(m)[0..|Encode(m)|] == Encode(m);
    ParsesEncoding(inner, Encode(m), 0, Blank, m);
    assert Blank.borrowingPools + m.borrowingPools == m.borrowingPools;
    assert m.nodeSelector.Some? ==> [] + m.nodeSelector.value == m.nodeSelector.value;
  }

  // ----- fields this version does not know -----

  /** A field of any kind the wire format has; a group holds fields. */
  datatype Field =
    | VarintField(num: nat, value: nat)
    | Fixed64Field(num: nat, bytes: seq<Byte>)
    | LengthField(num: nat, bytes: seq<Byte>)
    | GroupField(num: nat, fields: seq<Field>)
    | Fixed32Field(num: nat, bytes: seq<Byte>)

  predicate WellFormed(f: Field) {
    && 0 < f.num < 0x2000_0000
    && match f
      case VarintField(_, value) => value < Uint64Limit
      case Fixed64Field(_, bytes) => |bytes| == 8
      case LengthField(_, _) => true
      case GroupField(_, fields) => forall i :: 0 <= i < |fields| ==> WellFormed(fields[i])
      case Fixed32Field(_, bytes) => |bytes| == 4
  }

  function Tag(num: nat, wireType: nat): seq<Byte> { VarintBytes(num * 8 + wireType) }

  /** The field as the wire format writes it. */
  function FieldBytes(f: Field): seq<Byte> {
    match f
    case VarintField(num, value) => Tag(num, 0) + VarintBytes(value)
    case Fixed64Field(num, bytes) => Tag(num, 1) + bytes
    case LengthField(num, bytes) => Tag(num, 2) + (VarintBytes(|bytes|) + bytes)
    case GroupField(num, fields) => Tag(num, 3) + (FieldsFrom(fields, 0) + Tag(num, 4))
    case Fixed32Field(num, bytes) => Tag(num, 5) + bytes
  }

  function FieldsFrom(fields: seq<Field>, k: nat): seq<Byte>
    requires k <= |fields|
    decreases fields, |fields| - k
  {
    if k == |fields| then [] else FieldBytes(fields[k]) + FieldsFrom(fields, k + 1)
  }

  /** What a byte string of the varint form stands for: seven bits a byte, lowest first. */
  function Meaning(bytes: seq<Byte>): nat {
    if bytes == [] then 0 else bytes[0] % 0x80 + 0x80 * Meaning(bytes[1..])
  }

  /** A varint means its value, and only its last byte ends it. */
  lemma {:induction false} VarintMeans(v: nat)
    ensures Meaning(VarintBytes(v)) == v
    ensures var bytes := VarintBytes(v);
      bytes[|bytes| - 1] < 0x80 && forall i :: 0 <= i < |bytes| - 1 ==> bytes[i] >= 0x80
    decreases v
  {
    if v >= 0x80 {
      VarintMeans(v / 0x80);
      assert VarintBytes(v)[1..] == VarintBytes(v / 0x80);
    } else {
      assert VarintBytes(v)[1..] == [];
    }
  }

  /** The fields of a spec, by their numbers: the selector, if there is one, as 1; whether preemption and
      borrowing are disabled as 2 and 3; the pools to borrow from as 4, one by one; whether sharing is
      disabled as 5. */
  function FieldsOf(m: Spec): seq<Field> {
    (if m.nodeSelector.Some? then [LengthField(1, m.nodeSelector.value)] else [])
    + [VarintField(2, if m.disablePreemption then 1 else 0), VarintField(3, if m.disableBorrowing then 1 else 0)]
    + seq(|m.borrowingPools|, i requires 0 <= i < |m.borrowingPools| => LengthField(4, m.borrowingPools[i]))
    + [VarintField(5, if m.disableSharing then 1 else 0)]
  }

  lemma {:induction false} FieldsSplit(a: seq<Field>, b: seq<Field>, k: nat)
    requires k <= |a|
    ensures FieldsFrom(a + b, k) == FieldsFrom(a, k) + FieldsFrom(b, 0)
    decreases |a| - k
  {
    hide FieldBytes;
    if k < |a| {
      FieldsSplit(a, b, k + 1);
    } else {
      FieldsAfter(a, b, 0);
    }
  }

  lemma {:induction false} FieldsAfter(a: seq<Field>, b: seq<Field>, k: nat)
    requires k <= |b|
    ensures FieldsFrom(a + b, |a| + k) == FieldsFrom(b, k)
    decreases |b| - k
  {
    hide FieldBytes;
    if k < |b| {
      FieldsAfter(a, b, k + 1);
    }
  }

  lemma {:induction false} PoolsAreFields(pools: seq<seq<Byte>>, k: nat)
    requires k <= |pools|
    ensures PoolFields(pools, k) == FieldsFrom(seq(k, i requires 0 <= i < k => LengthField(4, pools[i])), 0)
  {
    hide VarintBytes;
    var fields := seq(k, i requires 0 <= i < k => LengthField(4, pools[i]));
    if k > 0 {
      var before := seq(k - 1, i requires 0 <= i < k - 1 => LengthField(4, pools[i]));
      PoolsAreFields(pools, k - 1);
      assert fields == before + [LengthField(4, pools[k - 1])];
      FieldsSplit(before, [LengthField(4, pools[k - 1])], 0);
      OneField(LengthField(4, pools[k - 1]));
      SmallTag(4, 2);
    }
  }

  lemma OneField(f: Field)
    ensures FieldsFrom([f], 0) == FieldBytes(f)
  {
    hide FieldBytes;
    assert FieldsFrom([f], 1) == [];
  }

  lemma SmallTag(num: nat, wireType: nat)
    requires num < 16 && wireType < 8
    ensures Tag(num, wireType) == [num * 8 + wireType]
  {
  }

  /** The encoding is the fields in the wire format, in the order of their numbers. */
  lemma EncodeIsFields(m: Spec)
    ensures Encode(m) == FieldsFrom(FieldsOf(m), 0)
  {
    hide VarintBytes, FieldsFrom, FieldBytes, PoolFields;
    var sel := if m.nodeSelector.Some? then [LengthField(1, m.nodeSelector.value)] else [];
    var two := VarintField(2, if m.disablePreemption then 1 else 0);
    var three := VarintField(3, if m.disableBorrowing then 1 else 0);
    var n := |m.borrowingPools|;
    var pools := seq(n, i requires 0 <= i < n => LengthField(4, m.borrowingPools[i]));
    var five := VarintField(5, if m.disableSharing then 1 else 0);
    assert FieldsOf(m) == sel + [two] + [three] + pools + [five];
    FieldsSplit(sel + [two] + [three] + pools, [five], 0);
    FieldsSplit(sel + [two] + [three], pools, 0);
    FieldsSplit(sel + [two], [three], 0);
    FieldsSplit(sel, [two], 0);
    OneField(two);
    OneField(three);
    OneField(five);
    PoolsAreFields(m.borrowingPools, n);
    FlagBytes(2, m.disablePreemption);
    FlagBytes(3, m.disableBorrowing);
    FlagBytes(5, m.disableSharing);
    SelectorIsField(m.nodeSelector);
  }

  lemma FlagBytes(num: nat, b: bool)
    requires num < 16
    ensures FieldBytes(VarintField(num, if b then 1 else 0)) == [num * 8, Flag(b)]
  {
    SmallTag(num, 0);
  }

  lemma SelectorIsField(selector: Option<seq<Byte>>)
    ensures SelectorField(selector) ==
      FieldsFrom(if selector.Some? then [LengthField(1, selector.value)] else [], 0)
  {
    hide VarintBytes;
    if selector.Some? {
      OneField(LengthField(1, selector.value));
      SmallTag(1, 2);
    }
  }

  lemma TagReadsBack(data: seq<Byte>, i: nat, num: nat, wireType: nat)
    requires num < 0x2000_0000 && wireType < 8 && At(data, i, Tag(num, wireType))
    ensures i < |data| && ReadVarint(data, i, 0, 0) == Ok(num * 8 + wireType, i + |Tag(num, wireType)|)
    ensures Int32((num * 8 + wireType) / 8) == num && (num * 8 + wireType) % 8 == wireType
  {
    hide VarintBytes, Int32, ReadVarint;
    PowerOfNone();
    VarintReadsBack(data, i, 0, 0, num * 8 + wireType);
    TagParts(num, wireType);
  }

  /** Which way skipping goes. */
  lemma SkipByKind(data: seq<Byte>, b: nat, num: nat, wireType: nat)
    requires num < 0x2000_0000 && wireType < 8 && At(data, b, Tag(num, wireType))
    ensures b < |data|
    ensures var j := b + |Tag(num, wireType)|;
      && b < j && (wireType == 0 ==> Skip(data, b) == SkipVarint(data, b, j))
      && (wireType == 1 ==> Skip(data, b) == PastTo(b, j + 8))
      && (wireType == 2 ==> Skip(data, b) == SkipBytes(data, b, j))
      && (wireType == 3 ==> Skip(data, b) == SkipGroup(data, b, j))
      && (wireType == 5 ==> Skip(data, b) == PastTo(b, j + 4))
  {
    hide ReadVarint, SkipVarint, SkipBytes, SkipGroup, PastTo, At, VarintBytes;
    TagReadsBack(data, b, num, wireType);
  }

  lemma AtInside(data: seq<Byte>, i: nat, bytes: seq<Byte>)
    requires At(data, i, bytes)
    ensures i + |bytes| <= |data|
  {
  }

  /** Any field in its wire format is skipped as a whole, with the groups inside it. */
  lemma {:induction false} FieldSkipped(data: seq<Byte>, b: nat, f: Field)
    requires |data| <= MaxInt64 && WellFormed(f) && At(data, b, FieldBytes(f))
    ensures Skip(data, b) == Past(b + |FieldBytes(f)|)
    decreases f, 1, 0
  {
    hide ReadVarint, VarintBytes, Skip, SkipGroup, At, Tag, FieldsFrom;
    AtInside(data, b, FieldBytes(f));
    match f
    case VarintField(num, value) =>
      AtSplit(data, b, Tag(num, 0), VarintBytes(value));
      SkipByKind(data, b, num, 0);
      PowerOfNone();
      VarintReadsBack(data, b + |Tag(num, 0)|, 0, 0, value);
    case Fixed64Field(num, bytes) =>
      AtSplit(data, b, Tag(num, 1), bytes);
      SkipByKind(data, b, num, 1);
    case LengthField(num, bytes) =>
      AtSplit(data, b, Tag(num, 2), VarintBytes(|bytes|) + bytes);
      AtSplit(data, b + |Tag(num, 2)|, VarintBytes(|bytes|), bytes);
      SkipByKind(data, b, num, 2);
      LengthReadsBack(data, b + |Tag(num, 2)|, bytes);
    case GroupField(num, fields) =>
      AtSplit(data, b, Tag(num, 3), FieldsFrom(fields, 0) + Tag(num, 4));
      SkipByKind(data, b, num, 3);
      GroupSkipped(data, b, b + |Tag(num, 3)|, f, 0);
    case Fixed32Field(num, bytes) =>
      AtSplit(data, b, Tag(num, 5), bytes);
      SkipByKind(data, b, num, 5);
  }

  lemma {:induction false} GroupSkipped(data: seq<Byte>, b: nat, i: nat, f: Field, k: nat)
    requires |data| <= MaxInt64 && f.GroupField? && WellFormed(f) && b < i && k <= |f.fields|
    requires At(data, i, FieldsFrom(f.fields, k) + Tag(f.num, 4))
    ensures SkipGroup(data, b, i) == Past(i + |FieldsFrom(f.fields, k) + Tag(f.num, 4)|)
    decreases f, 0, |f.fields| - k
  {
    hide ReadVarint, VarintBytes, Skip, At, Tag, FieldBytes;
    AtInside(data, i, FieldsFrom(f.fields, k) + Tag(f.num, 4));
    if k == |f.fields| {
      assert FieldsFrom(f.fields, k) + Tag(f.num, 4) == Tag(f.num, 4);
      TagReadsBack(data, i, f.num, 4);
    } else {
      var g := f.fields[k];
      var rest := FieldsFrom(f.fields, k + 1) + Tag(f.num, 4);
      assert FieldsFrom(f.fields, k) + Tag(f.num, 4) == FieldBytes(g) + rest;
      AtSplit(data, i, FieldBytes(g), rest);
      FieldSkipped(data, i, g);
      StartsWithTag(data, i, g);
      AtInside(data, i, FieldBytes(g));
      GroupSkipped(data, b, i + |FieldBytes(g)|, f, k + 1);
    }
  }

  /** A field does not start like the end of a group. */
  lemma StartsWithTag(data: seq<Byte>, i: nat, f: Field)
    requires WellFormed(f) && At(data, i, FieldBytes(f))
    ensures i < |data| && |FieldBytes(f)| > 0 && ReadVarint(data, i, 0, 0).Ok?
    ensures ReadVarint(data, i, 0, 0).value % 8 != 4 && Int32(ReadVarint(data, i, 0, 0).value / 8) == f.num
  {
    hide ReadVarint, VarintBytes, At, FieldsFrom, Int32;
    match f
    case VarintField(num, value) =>
      AtSplit(data, i, Tag(num, 0), VarintBytes(value));
      TagReadsBack(data, i, num, 0);
    case Fixed64Field(num, bytes) =>
      AtSplit(data, i, Tag(num, 1), bytes);
      TagReadsBack(data, i, num, 1);
    case LengthField(num, bytes) =>
      AtSplit(data, i, Tag(num, 2), VarintBytes(|bytes|) + bytes);
      TagReadsBack(data, i, num, 2);
    case GroupField(num, fields) =>
      AtSplit(data, i, Tag(num, 3), FieldsFrom(fields, 0) + Tag(num, 4));
      TagReadsBack(data, i, num, 3);
    case Fixed32Field(num, bytes) =>
      AtSplit(data, i, Tag(num, 5), bytes);
      TagReadsBack(data, i, num, 5);
  }

  /** A field that this version does not know, of whatever kind, is passed over. */
  lemma UnknownFieldIgnored(inner: Inner, data: seq<Byte>, i: nat, m: Spec, f: Field)
    requires |data| <= MaxInt64 && WellFormed(f) && f.num > 5 && At(data, i, FieldBytes(f))
    ensures i + |FieldBytes(f)| <= |data|
    ensures Parse(inner, data, i, m) == Parse(inner, data, i + |FieldBytes(f)|, m)
  {
    hide ReadVarint, VarintBytes, Skip, ReadBytes, Parse, Int32, FieldBytes;
    StartsWithTag(data, i, f);
    FieldSkipped(data, i, f);
    AtInside(data, i, FieldBytes(f));
    Continues(inner, data, i, m, m, i + |FieldBytes(f)|);
  }

  /** What skipping makes of a length-delimited field. */
  lemma SkipOfBytes(data: seq<Byte>, i: nat)
    requires ReadVarint(data, i, 0, 0).Ok? && ReadVarint(data, i, 0, 0).value % 8 == 2
    ensures Skip(data, i) == SkipBytes(data, i, ReadVarint(data, i, 0, 0).next)
  {
    hide ReadVarint, SkipBytes, SkipGroup, SkipVarint;
  }

  // ----- when unmarshalling panics -----

  /** The field at `i` has this number and kind, and its value starts at `j`. */
  predicate Tagged(data: seq<Byte>, i: nat, fieldNum: int, wireType: nat, j: nat) {
    match ReadVarint(data, i, 0, 0)
    case Ok(wire, next) => Int32(wire / 8) == fieldNum && wire % 8 == wireType && next == j
    case Err(_) => false
  }

  /** The length read at `j` makes an index relative to `b` overflow, though it is itself in range. */
  predicate EndOverflows(data: seq<Byte>, b: nat, j: nat) {
    match ReadVarint(data, j, 0, 0)
    case Ok(length, k) => length <= MaxInt64 && Overflows(b, k + length)
    case Err(_) => false
  }

  predicate SelectorPanics(inner: Inner, data: seq<Byte>, j: nat) {
    match ReadBytes(data, j)
    case Ok(bytes, _) => inner(bytes) == Some(Panics)
    case Err(_) => false
  }

  /** Exactly when one of the fields the message knows panics: a selector or a pool name whose length is
      in range and whose end is not, or a selector that panics itself. */
  lemma KnownFieldPanicsIff(inner: Inner, data: seq<Byte>, i: nat, m: Spec, fieldNum: int, wireType: nat, j: nat)
    requires Tagged(data, i, fieldNum, wireType, j) && 1 <= fieldNum <= 5
    ensures ParseField(inner, data, i, m) == Err(Panics)
      <==> wireType == 2 && (((fieldNum == 1 || fieldNum == 4) && EndOverflows(data, 0, j))
                             || (fieldNum == 1 && SelectorPanics(inner, data, j)))
  {
    hide Skip;
    ReadVarintNeverPanics(data, i, 0, 0);
    ReadVarintNeverPanics(data, j, 0, 0);
  }

  lemma {:induction false} ReadVarintNeverPanics(data: seq<Byte>, i: nat, k: nat, acc: nat)
    ensures ReadVarint(data, i, k, acc) != Err(Panics)
    decreases 10 - k
  {
    hide Joined;
    if k < 10 && i < |data| && data[i] >= 0x80 {
      ReadVarintNeverPanics(data, i + 1, k + 1, Joined(acc, data[i], k));
    }
  }

  /** Exactly when an unknown length-delimited field panics: its end overflows for the message, but not
      relative to the field; if it overflows there too, the length is refused. */
  lemma UnknownFieldPanicsIff(inner: Inner, data: seq<Byte>, i: nat, m: Spec, fieldNum: int, j: nat)
    requires Tagged(data, i, fieldNum, 2, j) && fieldNum > 5
    ensures ParseField(inner, data, i, m) == Err(Panics) <==> EndOverflows(data, 0, j) && !EndOverflows(data, i, j)
  {
    hide Skip, ReadBytes;
    SkipOfBytes(data, i);
    ReadVarintNeverPanics(data, i, 0, 0);
    ReadVarintNeverPanics(data, j, 0, 0);
  }

  /** Somewhere in the data a varint reads as a length that is in range, but reaches the end of the
      range from inside the data. */
  ghost predicate HasHugeLength(data: seq<Byte>) {
    exists k, n, next :: ReadsHuge(data, k, n, next)
  }

  predicate ReadsHuge(data: seq<Byte>, k: nat, n: nat, next: nat) {
    ReadVarint(data, k, 0, 0) == Ok(n, next) && n <= MaxInt64 < |data| + n
  }

  lemma HugeAt(data: seq<Byte>, b: nat, k: nat)
    requires ReadVarint(data, k, 0, 0).Ok? && ReadVarint(data, k, 0, 0).value <= MaxInt64
    requires Overflows(b, ReadVarint(data, k, 0, 0).next + ReadVarint(data, k, 0, 0).value)
    ensures HasHugeLength(data)
  {
    hide ReadVarint;
    var r := ReadVarint(data, k, 0, 0);
    assert r.next <= |data| by { ReadVarintStays(data, k); }
    assert ReadsHuge(data, k, r.value, r.next);
  }

  lemma ReadVarintStays(data: seq<Byte>, k: nat)
    ensures ReadVarint(data, k, 0, 0).Ok? ==> ReadVarint(data, k, 0, 0).next <= |data|
  {
  }

  /** Skipping panics, wraps or leaves the range only over such a length. */
  lemma {:induction false} SkipNeedsHuge(data: seq<Byte>, b: nat)
    requires |data| <= MaxInt64 - 8
    ensures Skip(data, b) == Fails(Panics) || Skip(data, b).Wrapped? ==> HasHugeLength(data)
    ensures Skip(data, b).Past? && Skip(data, b).next > MaxInt64 ==> HasHugeLength(data)
    decreases if b <= |data| then |data| - b else 0, 0
  {
    hide ReadVarint, SkipGroup, HasHugeLength;
    ReadVarintNeverPanics(data, b, 0, 0);
    ReadVarintStays(data, b);
    match ReadVarint(data, b, 0, 0)
    case Err(e) =>
    case Ok(wire, j) =>
      ReadVarintNeverPanics(data, j, 0, 0);
      ReadVarintStays(data, j);
      if wire % 8 == 2 && ReadVarint(data, j, 0, 0).Ok? && ReadVarint(data, j, 0, 0).value <= MaxInt64
         && Overflows(0, ReadVarint(data, j, 0, 0).next + ReadVarint(data, j, 0, 0).value) {
        HugeAt(data, 0, j);
      }
      if wire % 8 == 3 {
        SkipGroupNeedsHuge(data, b, j);
      }
  }

  lemma {:induction false} SkipGroupNeedsHuge(data: seq<Byte>, b: nat, i: nat)
    requires |data| <= MaxInt64 - 8 && b < i
    ensures SkipGroup(data, b, i) == Fails(Panics) || SkipGroup(data, b, i).Wrapped? ==> HasHugeLength(data)
    ensures SkipGroup(data, b, i).Past? && SkipGroup(data, b, i).next > MaxInt64 ==> HasHugeLength(data)
    decreases if i <= |data| then |data| - i else 0, 1
  {
    hide ReadVarint, Skip, HasHugeLength;
    ReadVarintNeverPanics(data, i, 0, 0);
    ReadVarintStays(data, i);
    match ReadVarint(data, i, 0, 0)
    case Err(e) =>
    case Ok(wire, j) =>
      if wire % 8 != 4 {
        SkipNeedsHuge(data, i);
        if Skip(data, i).Past? && !Overflows(b, Skip(data, i).next) {
          SkipGroupNeedsHuge(data, b, Skip(data, i).next);
        }
      }
  }

  /** The selector's unmarshalling is generated code, too, and panics over such a length only. */
  ghost predicate PanicsOnHuge(inner: Inner) {
    forall bytes :: inner(bytes) == Some(Panics) ==> HasHugeLength(bytes)
  }

  lemma {:induction false} ReadsInSlice(data: seq<Byte>, a: nat, b: nat, i: nat, k: nat, acc: nat)
    requires a <= b <= |data|
    ensures var r := ReadVarint(data[a..b], i, k, acc);
      r.Ok? ==> ReadVarint(data, a + i, k, acc) == Ok(r.value, a + r.next)
    decreases 10 - k
  {
    hide Joined;
    if k < 10 && i < b - a {
      assert data[a..b][i] == data[a + i];
      ReadsInSlice(data, a, b, i + 1, k + 1, Joined(acc, data[a + i], k));
    }
  }

  /** A length that is huge in a part is huge in the whole. */
  lemma HugeInSlice(data: seq<Byte>, a: nat, b: nat)
    requires a <= b <= |data| && HasHugeLength(data[a..b])
    ensures HasHugeLength(data)
  {
    hide ReadVarint;
    var k, n, next :| ReadsHuge(data[a..b], k, n, next);
    ReadsInSlice(data, a, b, k, 0, 0);
    assert ReadsHuge(data, a + k, n, a + next);
  }

  /** No input without such a length makes unmarshalling panic. */
  lemma {:induction false} PanicNeedsHugeLength(inner: Inner, data: seq<Byte>, i: nat, m: Spec)
    requires i <= |data| <= MaxInt64 - 8 && PanicsOnHuge(inner) && Parse(inner, data, i, m) == Err(Panics)
    ensures HasHugeLength(data)
    decreases |data| - i
  {
    hide ReadVarint, Skip, HasHugeLength, Int32, ParseField;
    FieldPanicNeedsHuge(inner, data, i, m);
    var r := ParseField(inner, data, i, m);
    if r.Ok? {
      PanicNeedsHugeLength(inner, data, r.next, r.value);
    }
  }

  lemma FieldPanicNeedsHuge(inner: Inner, data: seq<Byte>, i: nat, m: Spec)
    requires |data| <= MaxInt64 - 8 && PanicsOnHuge(inner)
    ensures ParseField(inner, data, i, m) == Err(Panics) ==> HasHugeLength(data)
  {
    hide ReadVarint, Skip, HasHugeLength, Int32;
    ReadVarintNeverPanics(data, i, 0, 0);
    SkipNeedsHuge(data, i);
    match ReadVarint(data, i, 0, 0)
    case Err(e) =>
    case Ok(wire, j) =>
      ReadVarintNeverPanics(data, j, 0, 0);
      if ReadVarint(data, j, 0, 0).Ok? && ReadVarint(data, j, 0, 0).value <= MaxInt64 {
        var from := ReadVarint(data, j, 0, 0).next;
        var to := from + ReadVarint(data, j, 0, 0).value;
        if Overflows(0, to) {
          HugeAt(data, 0, j);
        } else if to <= |data| && inner(data[from..to]) == Some(Panics) {
          HugeInSlice(data, from, to);
        }
      }
  }

  /** Ten bytes that panic: a pool name of the greatest length there is. */
  lemma HugeLengthPanics(inner: Inner, m: Spec)
    ensures Parse(inner, [0x22] + VarintBytes(MaxInt64), 0, m) == Err(Panics)
  {
    hide ReadVarint, VarintBytes, Skip;
    var length := VarintBytes(MaxInt64);
    var data: seq<Byte> := [0x22] + length;
    SmallVarint(data, 0, 0x22);
    PowerOfNone();
    assert data[1..1 + |length|] == length;
    VarintReadsBack(data, 1, 0, 0, MaxInt64);
  }
}
