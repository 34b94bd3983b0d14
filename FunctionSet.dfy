/**
 * The byte-array XOR of CodedCaching/functionSet.py: strings are first read
 * as lists of decimal digits, anything that is then not bytes, a bytearray
 * or a list is refused, lengths must agree, and the result is the bytes of
 * the element-wise exclusive or.
 */
module FunctionSet {
  import opened Wrappers

  /** A value bytes() accepts. */
  type Byte = x: int | 0 <= x < 256

  /** The argument kinds XOR tells apart, by class name. */
  datatype PyValue =
    | PyStr(chars: string)
    | PyBytes(bytes: seq<Byte>)
    | PyByteArray(bytes: seq<Byte>)
    | PyList(items: seq<nat>)
    | PyOther

  datatype XorError =
    | NotADigit       // int() of a character that is not a decimal digit
    | NotBytes        // an argument is not bytes, bytearray or list
    | LengthMismatch  // the arguments differ in length
    | ByteOutOfRange  // bytes() of a value outside [0, 256)

  // ----- exclusive or on non-negative integers -----

  /** Python's x ^ y for x, y >= 0, one binary digit at a time. */
  function NatXor(x: nat, y: nat): nat
    decreases x + y
  {
    if x == 0 then y
    else if y == 0 then x
    else 2 * NatXor(x / 2, y / 2) + (if x % 2 == y % 2 then 0 else 1)
  }

  /** The digit-by-digit description holds also when an operand is 0. */
  lemma NatXorStep(x: nat, y: nat)
    ensures NatXor(x, y) == 2 * NatXor(x / 2, y / 2) + (if x % 2 == y % 2 then 0 else 1)
  {
    if x == 0 {
      assert NatXor(0, y / 2) == y / 2;
    } else if y == 0 {
      assert NatXor(x / 2, 0) == x / 2;
    }
  }

  lemma {:induction false} NatXorCommutes(x: nat, y: nat)
    ensures NatXor(x, y) == NatXor(y, x)
    decreases x + y
  {
    if x != 0 && y != 0 {
      NatXorCommutes(x / 2, y / 2);
    }
  }

  lemma {:induction false} NatXorSelf(x: nat)
    ensures NatXor(x, x) == 0
    decreases x
  {
    if x != 0 {
      NatXorSelf(x / 2);
    }
  }

  /** XOR-ing y in twice gives x back. */
  lemma {:induction false} NatXorCancels(x: nat, y: nat)
    ensures NatXor(NatXor(x, y), y) == x
    decreases x + y
  {
    if x + y > 0 {
      var z := NatXor(x, y);
      NatXorStep(x, y);
      NatXorStep(z, y);
      assert z / 2 == NatXor(x / 2, y / 2) && z % 2 == (if x % 2 == y % 2 then 0 else 1);
      NatXorCancels(x / 2, y / 2);
    }
  }

  function Pow2(k: nat): nat
  {
    if k == 0 then 1 else 2 * Pow2(k - 1)
  }

  /** Operands of k binary digits give a result of k binary digits. */
  lemma {:induction false} NatXorBound(x: nat, y: nat, k: nat)
    requires x < Pow2(k) && y < Pow2(k)
    ensures NatXor(x, y) < Pow2(k)
  {
    if k > 0 {
      NatXorBound(x / 2, y / 2, k - 1);
      NatXorStep(x, y);
    }
  }

  /** Two bytes XOR to a byte. */
  lemma ByteXorIsByte(x: Byte, y: Byte)
    ensures NatXor(x, y) < 256
  {
    assert Pow2(8) == 256;
    NatXorBound(x, y, 8);
  }

  // ----- the argument checks -----

  function DigitOf(ch: char): Option<nat>
  {
    if '0' <= ch <= '9' then Some(ch as int - '0' as int) else None
  }

  /** [int(a[i]) for i in range(len(a))] */
  function DigitList(s: string): (r: Option<seq<nat>>)
    ensures r.Some? <==> forall i :: 0 <= i < |s| ==> '0' <= s[i] <= '9'
    ensures r.Some? ==> |r.value| == |s|
    ensures r.Some? ==> forall i :: 0 <= i < |s| ==> r.value[i] == s[i] as int - '0' as int
  {
    if |s| == 0 then Some([])
    else
      match (DigitList(s[..|s| - 1]), DigitOf(s[|s| - 1]))
      case (Some(init), Some(d)) => Some(init + [d])
      case _ => None
  }

  /** The value after the string conversion: itself, a digit list, or NotADigit. */
  function Normalise(v: PyValue): Result<PyValue, XorError>
  {
    if v.PyStr? then
      (match DigitList(v.chars)
       case Some(ds) => Ok(PyList(ds))
       case None => Err(NotADigit))
    else Ok(v)
  }

  /** The entries of a bytes, bytearray or list value. */
  function Items(v: PyValue): (r: Option<seq<nat>>)
    ensures r.Some? <==> v.PyBytes? || v.PyByteArray? || v.PyList?
  {
    match v
    case PyBytes(bs) => Some(seq(|bs|, i requires 0 <= i < |bs| => bs[i] as nat))
    case PyByteArray(bs) => Some(seq(|bs|, i requires 0 <= i < |bs| => bs[i] as nat))
    case PyList(xs) => Some(xs)
    case _ => None
  }

  /** bytes([a[i] ^ b[i] for i in range(len(a))]): refused when some a[i] ^ b[i] is not a byte. */
  function XorItems(a: seq<nat>, b: seq<nat>): (r: Result<seq<Byte>, XorError>)
    requires |a| == |b|
    ensures r.Ok? <==> forall i :: 0 <= i < |a| ==> NatXor(a[i], b[i]) < 256
    ensures r.Ok? ==> |r.value| == |a|
    ensures r.Ok? ==> forall i :: 0 <= i < |a| ==> r.value[i] == NatXor(a[i], b[i])
    ensures r.Err? ==> r.error == ByteOutOfRange
  {
    if |a| == 0 then Ok([])
    else
      var n := |a| - 1;
      var init := XorItems(a[..n], b[..n]);
      var x := NatXor(a[n], b[n]);
      if init.Ok? && x < 256 then Ok(init.value + [x]) else Err(ByteOutOfRange)
  }

  /** The checks after the string conversion: two sequences of one length. */
  function XorValues(a: PyValue, b: PyValue): Result<seq<Byte>, XorError>
  {
    match (Items(a), Items(b))
    case (Some(xs), Some(ys)) => if |xs| != |ys| then Err(LengthMismatch) else XorItems(xs, ys)
    case _ => Err(NotBytes)
  }

  /** XOR(a, b), with its checks in the source's order. */
  function Xor(a: PyValue, b: PyValue): (r: Result<seq<Byte>, XorError>)
  {
    match (Normalise(a), Normalise(b))
    case (Err(e), _) => Err(e)
    case (_, Err(e)) => Err(e)
    case (Ok(a'), Ok(b')) => XorValues(a', b')
  }

  // ----- what XOR promises -----

  /** On two byte strings of the same length, XOR succeeds with the element-wise exclusive or. */
  lemma XorBytes(a: seq<Byte>, b: seq<Byte>)
    requires |a| == |b|
    ensures Xor(PyBytes(a), PyBytes(b)).Ok?
    ensures var r := Xor(PyBytes(a), PyBytes(b)).value;
            |r| == |a| && forall i :: 0 <= i < |a| ==> r[i] == NatXor(a[i], b[i])
  {
    var xs := Items(PyBytes(a)).value;
    var ys := Items(PyBytes(b)).value;
    forall i | 0 <= i < |a|
      ensures NatXor(xs[i], ys[i]) < 256
    {
      ByteXorIsByte(a[i], b[i]);
    }
  }

  /** Arguments that are neither strings nor byte sequences nor lists are refused. */
  lemma XorRejectsOther(v: PyValue)
    requires Normalise(v).Ok?
    ensures Xor(PyOther, v) == Err(NotBytes) && Xor(v, PyOther) == Err(NotBytes)
  {
  }

  /** Valid sequences of different lengths are refused. */
  lemma XorRejectsLengths(a: PyValue, b: PyValue)
    requires !a.PyStr? && !b.PyStr? && Items(a).Some? && Items(b).Some?
    requires |Items(a).value| != |Items(b).value|
    ensures Xor(a, b) == Err(LengthMismatch)
  {
  }

  /** A string of decimal digits XORs as its list of digits; any other string is refused. */
  lemma XorReadsDigits(s: string, b: PyValue)
    ensures DigitList(s).Some? ==> Xor(PyStr(s), b) == Xor(PyList(DigitList(s).value), b)
    ensures DigitList(s).None? ==> Xor(PyStr(s), b) == Err(NotADigit)
  {
    assert Normalise(PyStr(s)) == (if DigitList(s).Some? then Ok(PyList(DigitList(s).value)) else Err(NotADigit));
    if DigitList(s).Some? {
      assert Normalise(PyList(DigitList(s).value)) == Ok(PyList(DigitList(s).value));
    }
  }

  /** XOR is commutative, errors and all. */
  lemma XorCommutes(a: PyValue, b: PyValue)
    ensures Xor(a, b) == Xor(b, a)
  {
    if Normalise(a).Err? || Normalise(b).Err? {
      return;
    }
    var a', b' := Normalise(a).value, Normalise(b).value;
    assert Xor(a, b) == XorValues(a', b') && Xor(b, a) == XorValues(b', a');
    var xs, ys := Items(a'), Items(b');
    if xs.Some? && ys.Some? && |xs.value| == |ys.value| {
      XorItemsCommute(xs.value, ys.value);
    }
  }

  lemma XorItemsCommute(a: seq<nat>, b: seq<nat>)
    requires |a| == |b|
    ensures XorItems(a, b) == XorItems(b, a)
  {
    forall i | 0 <= i < |a|
      ensures NatXor(a[i], b[i]) == NatXor(b[i], a[i])
    {
      NatXorCommutes(a[i], b[i]);
    }
    var r, r' := XorItems(a, b), XorItems(b, a);
    if r.Ok? {
      assert r.value == r'.value;
    }
  }

  /** XOR-ing the same bytes in twice gives the first argument's bytes back. */
  lemma XorCancels(a: seq<Byte>, b: seq<Byte>)
    requires |a| == |b|
    ensures Xor(PyBytes(a), PyBytes(b)).Ok?
    ensures Xor(PyBytes(Xor(PyBytes(a), PyBytes(b)).value), PyBytes(b)) == Ok(a)
  {
    XorBytes(a, b);
    var ab := Xor(PyBytes(a), PyBytes(b)).value;
    XorBytes(ab, b);
    var r := Xor(PyBytes(ab), PyBytes(b)).value;
    forall i | 0 <= i < |a|
      ensures r[i] == a[i]
    {
      NatXorCancels(a[i], b[i]);
    }
    assert r == a;
  }

  /** XOR of a byte string with itself is all zeros. */
  lemma XorSelfZero(a: seq<Byte>)
    ensures Xor(PyBytes(a), PyBytes(a)) == Ok(seq(|a|, _ => 0))
  {
    XorBytes(a, a);
    var r := Xor(PyBytes(a), PyBytes(a)).value;
    forall i | 0 <= i < |a|
      ensures r[i] == 0
    {
      NatXorSelf(a[i]);
    }
    assert r == seq(|a|, _ => 0);
  }
}
