/** What one driver call makes a reading of, and how a field value is decoded. */
module DriverReads {
  import opened Counters
  import opened ReturnCodes

  /** One call's value and return code. */
  datatype Answer = Answer(value: u64, ret: Return)

  function Observe(a: Answer): Reading {
    if a.ret.Success? then Reading(a.value, true) else UNREAD
  }

  /** One call's answer as a reading: its value when the call succeeded, and zero, not observed, otherwise. */
  predicate IsAnswer(r: Reading, a: Answer) {
    r.ok == a.ret.Success? && r.value == if a.ret.Success? then a.value else 0
  }

  predicate ZeroUnlessRead(r: Reading) {
    r.ok || r == UNREAD
  }

  // ---------------------------------------------------------------------------
  // Field values
  // ---------------------------------------------------------------------------

  datatype ValueType =
    | Double | UnsignedShort | UnsignedInt | UnsignedLong | UnsignedLongLong | SignedInt | SignedLongLong | UnknownType

  /** One field value as the driver returned it. The word is the value's eight bytes, read in the
      host's (little-endian) order; a narrower type uses its low bytes. */
  datatype FieldValue = FieldValue(valueType: ValueType, word: u64, ret: Return)

  const U16 := 0x1_0000
  const U32 := 0x1_0000_0000

  function FieldValueUint(v: FieldValue): (r: Reading)
    ensures ZeroUnlessRead(r)
  {
    match v.valueType
    case UnsignedShort => Reading(v.word % U16, true)
    case UnsignedInt => Reading(v.word % U32, true)
    case UnsignedLong => Reading(v.word, true)
    case UnsignedLongLong => Reading(v.word, true)
    case SignedInt => if v.word % U32 < U32 / 2 then Reading(v.word % U32, true) else UNREAD
    case SignedLongLong => if v.word < U64 / 2 then Reading(v.word, true) else UNREAD
    case _ => UNREAD
  }

  /** How many values each integer type can take, and the least of them. */
  function Modulus(t: ValueType): nat {
    match t
    case UnsignedShort => U16
    case UnsignedInt => U32
    case SignedInt => U32
    case _ => U64
  }

  function Least(t: ValueType): int {
    if t.SignedInt? || t.SignedLongLong? then -(Modulus(t) / 2) else 0
  }

  /** The word's low bytes hold n in two's complement. */
  ghost predicate Encodes(v: FieldValue, n: int) {
    && !v.valueType.Double? && !v.valueType.UnknownType?
    && Least(v.valueType) <= n < Least(v.valueType) + Modulus(v.valueType)
    && v.word % Modulus(v.valueType) == if n < 0 then n + Modulus(v.valueType) else n
  }

  /** A narrow value is in the low two or four bytes, whatever the bytes above them hold; the long types
      take all eight. */
  lemma HigherBytesAreIgnored(t: ValueType, high: nat, low: nat, ret: Return)
    ensures t.UnsignedShort? && low < 0x1_0000 && high < 0x1_0000_0000_0000 ==>
              FieldValueUint(FieldValue(t, high * 0x1_0000 + low, ret)) == Reading(low, true)
    ensures (t.UnsignedInt? || t.SignedInt?) && low < 0x1_0000_0000 && high < 0x1_0000_0000 ==>
              FieldValueUint(FieldValue(t, high * 0x1_0000_0000 + low, ret)) ==
              if t.SignedInt? && low >= 0x8000_0000 then Reading(0, false) else Reading(low, true)
    ensures (t.UnsignedLong? || t.UnsignedLongLong? || t.SignedLongLong?) && low < 0x1_0000_0000_0000_0000 ==>
              FieldValueUint(FieldValue(t, low, ret)) ==
              if t.SignedLongLong? && low >= 0x8000_0000_0000_0000 then Reading(0, false) else Reading(low, true)
    ensures t.Double? || t.UnknownType? ==> forall v: FieldValue :: v.valueType == t ==> FieldValueUint(v) == Reading(0, false)
  {
  }

  /** Decoding undoes the driver's encoding of every integer type, and reads nothing else: not a
      negative value, and not a value of another type. */
  lemma DecodesWhatWasEncoded(v: FieldValue, n: int)
    ensures Encodes(v, n) ==> FieldValueUint(v) == if n >= 0 then Reading(n, true) else UNREAD
    ensures (forall m :: !Encodes(v, m)) ==> FieldValueUint(v) == UNREAD
  {
    if !v.valueType.Double? && !v.valueType.UnknownType? {
      var low := v.word % Modulus(v.valueType);
      assert Encodes(v, if low < Least(v.valueType) + Modulus(v.valueType) then low else low - Modulus(v.valueType));
    }
  }
}
