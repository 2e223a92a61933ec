/** Value types shared by the connection engine: bytes, fixed-width unsigned
    integers, the Option/Result wrappers, and the lexicographic order that
    std::vector<unsigned char>::operator< gives byte strings. */
module NetTypes {

  type Byte = b: int | 0 <= b < 256

  const TWO_TO_THE_32: int := 0x1_0000_0000
  const TWO_TO_THE_64: int := 0x1_0000_0000_0000_0000

  /** uint32_t and uint64_t values. */
  type U32 = x: int | 0 <= x < TWO_TO_THE_32
  type U64 = x: int | 0 <= x < TWO_TO_THE_64

  /** The uint64_t that the integer x wraps around to. */
  function Wrap64(x: int): U64
  {
    x % TWO_TO_THE_64
  }

  datatype Option<+T> = None | Some(value: T)

  /** The kinds of inventory the connection engine names; every other kind
      keeps its numeric code. */
  datatype InvType = MsgTx | MsgTxLockRequest | MsgDstx | OtherInvType(code: int)

  /** A CInv: the kind of object and its hash. */
  datatype Inv = Inv(kind: InvType, hash: seq<Byte>)

  /** a < b for byte strings, as std::lexicographical_compare decides it. */
  predicate LexLess(a: seq<Byte>, b: seq<Byte>)
  {
    if a == [] then b != []
    else if b == [] then false
    else if a[0] < b[0] then true
    else if a[0] > b[0] then false
    else LexLess(a[1..], b[1..])
  }

  lemma {:induction false} LexLessIrreflexive(a: seq<Byte>)
    ensures !LexLess(a, a)
  {
    if a != [] {
      LexLessIrreflexive(a[1..]);
    }
  }

  lemma {:induction false} LexLessTransitive(a: seq<Byte>, b: seq<Byte>, c: seq<Byte>)
    requires LexLess(a, b) && LexLess(b, c)
    ensures LexLess(a, c)
  {
    if a != [] && b != [] && c != [] && a[0] == b[0] == c[0] {
      LexLessTransitive(a[1..], b[1..], c[1..]);
    }
  }

  /** Any two distinct byte strings are ordered one way or the other. */
  lemma {:induction false} LexLessTotal(a: seq<Byte>, b: seq<Byte>)
    ensures a == b || LexLess(a, b) || LexLess(b, a)
  {
    if a != [] && b != [] && a[0] == b[0] {
      LexLessTotal(a[1..], b[1..]);
      if a[1..] == b[1..] {
        assert a == [a[0]] + a[1..] && b == [b[0]] + b[1..];
      }
    }
  }

  /** The non-strict order "a <= b" derived from LexLess. */
  predicate LexLessEq(a: seq<Byte>, b: seq<Byte>)
  {
    !LexLess(b, a)
  }

  lemma LexLessEqTransitive(a: seq<Byte>, b: seq<Byte>, c: seq<Byte>)
    requires LexLessEq(a, b) && LexLessEq(b, c)
    ensures LexLessEq(a, c)
  {
    LexLessTotal(a, b);
    LexLessTotal(b, c);
    if LexLess(c, a) {
      if a == b {
      } else if LexLess(a, b) {
        LexLessTransitive(c, a, b);
      }
    }
  }

  lemma LexLessEqTotal(a: seq<Byte>, b: seq<Byte>)
    ensures LexLessEq(a, b) || LexLessEq(b, a)
  {
    if LexLess(a, b) && LexLess(b, a) {
      LexLessTransitive(a, b, a);
      LexLessIrreflexive(a);
    }
  }
}
