/** Value types shared by every model in this project. */
module Prelude {

  datatype Option<+T> = None | Some(value: T)

  datatype Result<+T, +E> = Ok(value: T) | Err(error: E)

  /** A Rust `u8`. */
  type byte = x: int | 0 <= x < 256

  type Bytes = seq<byte>

  type u32 = x: int | 0 <= x < 0x1_0000_0000

  /** A message as the adapter reports it; on CAN its data starts with the 4 identifier bytes. */
  datatype RxMsg = RxMsg(rxStatus: u32, data: Bytes) {
    /** The NOT_DATA bit: transmit echoes and start-of-message indications. */
    predicate IsIndication() {
      rxStatus / 2 % 2 == 1
    }
  }

  function Mod16(k: nat): byte {
    k % 16
  }

  function Mod256(k: nat): byte {
    k % 256
  }

  /** `x += 1` on a `u8` in a release build. */
  function WrapInc(b: byte): byte {
    Mod256(b + 1)
  }

  lemma Mod16Next(k: nat)
    ensures Mod16(k) < 16
    ensures Mod16(Mod16(k) + 1) == Mod16(k + 1)
  {
    assert k == 16 * (k / 16) + k % 16;
    if k % 16 == 15 {
      assert k + 1 == 16 * (k / 16 + 1);
    }
  }

  lemma RemainderNext(k: nat)
    ensures (k % 256 + 1) % 256 == (k + 1) % 256
  {
    var q, r := k / 256, k % 256;
    assert k + 1 == 256 * q + (r + 1);
    if r == 255 {
      assert k + 1 == 256 * (q + 1);
    }
  }

  lemma Mod256Next(k: nat)
    ensures WrapInc(Mod256(k)) == Mod256(k + 1)
    ensures k < 256 ==> Mod256(k) == k
  {
    RemainderNext(k);
  }

  function Min(a: int, b: int): int {
    if a <= b then a else b
  }

  function Max(a: int, b: int): int {
    if a <= b then b else a
  }

  /** `Vec::resize`: cuts a longer vector, fills up a shorter one. */
  function Resize(s: Bytes, n: nat, fill: byte): (r: Bytes)
    ensures |r| == n
    ensures forall i :: 0 <= i < n ==> r[i] == if i < |s| then s[i] else fill
  {
    seq(n, i requires 0 <= i < n => if i < |s| then s[i] else fill)
  }

  lemma Assoc<T>(a: seq<T>, b: seq<T>, c: seq<T>)
    ensures a + b + c == a + (b + c)
  {
  }

  lemma Unit<T>(s: seq<T>)
    ensures s + [] == s && [] + s == s
  {
  }

  lemma SliceJoin<T>(s: seq<T>, i: nat, k: nat)
    requires i <= k <= |s|
    ensures s[..i] + s[i..k] == s[..k]
  {
  }

  lemma SliceCons<T>(s: seq<T>, i: nat, k: nat)
    requires i < k <= |s|
    ensures [s[i]] + s[i + 1..k] == s[i..k]
  {
  }

  lemma SliceNext<T>(s: seq<T>, i: nat, k: nat)
    requires i <= k < |s|
    ensures s[i..k] + [s[k]] == s[i..k + 1]
  {
  }
}
