/**
  The growable buffer of the Safe Runtime (bin/json.c:3388-3849): a queue of characters
  between `start` and `end` of an array, which is compacted and replaced by a larger one.
*/
module Buffer {
  import opened Powers

  const MAX_BUF := 8 * 1024 * 1024
  const MIN_GROW := 64
  const MAXINT := 0x7fff_ffff
  const WORD := 64

  const BAD_ARGS := -6
  const NO_MEMORY := -32

  // ------------------------------------------------------------------ words

  predicate Bit(n: nat, i: nat) {
    if i == 0 then n % 2 == 1 else Bit(n / 2, i - 1)
  }

  // n | n >> k, on words of w bits.
  function OrShift(n: nat, k: nat, w: nat): nat {
    if w == 0 then 0 else 2 * OrShift(n / 2, k, w - 1) + if n % 2 == 1 || Bit(n, k) then 1 else 0
  }

  lemma {:induction false} OrShiftBit(n: nat, k: nat, w: nat, i: nat)
    ensures Bit(OrShift(n, k, w), i) <==> i < w && (Bit(n, i) || Bit(n, i + k))
    decreases w
  {
    if w == 0 {
      NoBits(0, 0, i);
    } else if i > 0 {
      OrShiftBit(n / 2, k, w - 1, i - 1);
      assert OrShift(n, k, w) / 2 == OrShift(n / 2, k, w - 1);
    }
  }

  // A number below 2^m has no bits from m on.
  lemma {:induction false} NoBits(n: nat, m: nat, i: nat)
    requires n < Pow2(m) && m <= i
    ensures !Bit(n, i)
    decreases i
  {
    if i > 0 {
      NoBits(n / 2, if m == 0 then 0 else m - 1, i - 1);
    }
  }

  lemma {:induction false} TopBit(n: nat) returns (j: nat)
    requires n > 0
    ensures Pow2(j) <= n < Pow2(j + 1) && Bit(n, j)
    decreases n
  {
    if n == 1 {
      j := 0;
    } else {
      j := TopBit(n / 2);
      j := j + 1;
    }
  }

  /** A number whose bits are those up to j is one less than 2^(j+1). */
  lemma {:induction false} AllOnes(n: nat, m: nat)
    requires forall i: nat {:trigger Bit(n, i)} :: Bit(n, i) <==> i < m
    ensures n == Pow2(m) - 1
    decreases m
  {
    if m == 0 {
      if n > 0 {
        var _ := TopBit(n);
      }
    } else {
      forall i: nat {:trigger Bit(n / 2, i)} ensures Bit(n / 2, i) <==> i < m - 1 {
        assert Bit(n, i + 1) <==> i + 1 < m;
      }
      AllOnes(n / 2, m - 1);
      assert Bit(n, 0);
    }
  }

  // The top bit is j, and s bits from there on are set.
  ghost predicate Filled(n: nat, j: nat, s: nat) {
    && (forall i: nat {:trigger Bit(n, i)} :: i > j ==> !Bit(n, i))
    && (forall i: nat {:trigger Bit(n, i)} :: j - s < i <= j ==> Bit(n, i))
  }

  /** Each step of the smear doubles the run of ones. */
  lemma SmearStep(n: nat, j: nat, s: nat)
    requires Filled(n, j, s) && j < WORD
    ensures Filled(OrShift(n, s, WORD), j, 2 * s)
  {
    forall i: nat {:trigger Bit(OrShift(n, s, WORD), i)} ensures
      (i > j ==> !Bit(OrShift(n, s, WORD), i)) && (j - 2 * s < i <= j ==> Bit(OrShift(n, s, WORD), i))
    {
      OrShiftBit(n, s, WORD, i);
    }
  }

  function AtLeastMin(size: nat): nat {
    if size < MIN_GROW then MIN_GROW else size
  }

  /** roundBufSize: the least power of two that is not below the size, or the minimum. */
  method RoundBufSize(size0: nat) returns (size: nat)
    requires size0 <= Pow2(WORD - 1)
    ensures exists k: nat :: k < WORD && size == Pow2(k)
    ensures AtLeastMin(size0) <= size && forall k: nat :: AtLeastMin(size0) <= Pow2(k) ==> size <= Pow2(k)
  {
    size := AtLeastMin(size0) - 1;
    assert Pow2(6) == MIN_GROW;
    Pow2Monotone(6, WORD - 1);
    ghost var j := TopBit(size);
    TopBelow(size, j);
    size := OrShift(size, 1, WORD);
    SmearStep(AtLeastMin(size0) - 1, j, 1);
    ghost var was := size;
    size := OrShift(size, 2, WORD);
    SmearStep(was, j, 2);
    was := size;
    size := OrShift(size, 4, WORD);
    SmearStep(was, j, 4);
    was := size;
    size := OrShift(size, 8, WORD);
    SmearStep(was, j, 8);
    was := size;
    size := OrShift(size, 16, WORD);
    SmearStep(was, j, 16);
    was := size;
    size := OrShift(size, 32, WORD);
    SmearStep(was, j, 32);
    AllOnes(size, j + 1);
    size := size + 1;
    forall k: nat | AtLeastMin(size0) <= Pow2(k) ensures size <= Pow2(k) {
      if k <= j {
        Pow2Monotone(k, j);
      } else {
        Pow2Monotone(j + 1, k);
      }
    }
  }

  lemma Pow2Order(a: nat, b: nat)
    ensures a <= b ==> Pow2(a) <= Pow2(b)
  {
    if a <= b {
      Pow2Monotone(a, b);
    }
  }

  // The top bit of what is rounded.
  lemma TopBelow(n: nat, j: nat)
    requires 0 < n < Pow2(WORD - 1) && Pow2(j) <= n < Pow2(j + 1) && Bit(n, j)
    ensures j < WORD - 1 && Filled(n, j, 1)
  {
    Pow2Order(WORD - 1, j);
    forall i: nat {:trigger Bit(n, i)} | i > j ensures !Bit(n, i) {
      NoBits(n, j + 1, i);
    }
  }

  // ------------------------------------------------------------------ the buffer

  class Buf {
    var buf: array<char>
    var start: int
    var end: int

    ghost predicate Valid()
      reads this
    {
      0 < buf.Length && 0 <= start <= end <= buf.Length
    }

    /** The characters put and not yet got. */
    ghost function Contents(): string
      reads this, buf
      requires Valid()
    {
      buf[start..end]
    }

    /** rInitBuf, of any size that was asked for. */
    constructor (size: nat)
      requires size > 0
      ensures Valid() && Contents() == "" && buf.Length == size && fresh(buf)
    {
      buf := new char[size](i => '\0');
      start, end := 0, 0;
    }

    function Space(): int
      reads this
    {
      buf.Length - end
    }

    /** rFlushBuf */
    method Flush()
      requires Valid()
      modifies this`start, this`end, buf
      ensures Valid() && Contents() == "" && start == 0
    {
      start, end := 0, 0;
      buf[0] := '\0';
      buf[buf.Length - 1] := '\0';
    }

    /** rCompactBuf: the contents move to the front. */
    method Compact()
      requires Valid()
      modifies this`start, this`end, buf
      ensures Valid() && Contents() == old(Contents()) && start == 0 && end == old(end - start)
    {
      if end == start {
        Flush();
        return;
      }
      if start > 0 {
        forall i | 0 <= i < end - start {
          buf[i] := buf[start + i];
        }
        end := end - start;
        start := 0;
      }
    }

    /** rGrowBufSize: the contents move to a larger array, unless that would be too large. */
    method GrowSize(size: int) returns (rc: int)
      requires Valid()
      modifies this, buf
      ensures Valid() && Contents() == old(Contents()) && (buf == old(buf) || fresh(buf))
      ensures rc == if 0 < size <= MAX_BUF then 0 else BAD_ARGS
      ensures rc == 0 ==> buf.Length >= size && Space() >= old(Space()) + size - old(buf.Length)
      ensures rc != 0 || size <= old(buf.Length) ==> buf == old(buf) && start == old(start) && end == old(end)
      ensures rc == 0 && size > old(buf.Length) ==> exists k: nat :: buf.Length == Pow2(k) && buf.Length < 2 * AtLeastMin(size)
    {
      if size <= 0 || size > MAX_BUF {
        return BAD_ARGS;
      }
      if size <= buf.Length {
        return 0;
      }
      MaxIsPower();
      var newSize := RoundBufSize(size);
      if newSize > MAX_BUF {
        return NO_MEMORY;
      }
      Move(newSize);
      return 0;
    }

    // The contents move to the front of a new array.
    method Move(newSize: int)
      requires Valid() && newSize >= buf.Length
      modifies this, buf
      ensures Valid() && Contents() == old(Contents()) && fresh(buf) && buf.Length == newSize && end <= old(end)
    {
      if start > 0 {
        Compact();
      }
      var newBuf := new char[newSize](i => '\0');
      forall i | 0 <= i < buf.Length {
        newBuf[i] := buf[i];
      }
      buf := newBuf;
    }

    /** rGrowBuf */
    method Grow(need: int) returns (rc: int)
      requires Valid()
      modifies this, buf
      ensures Valid() && Contents() == old(Contents()) && (buf == old(buf) || fresh(buf))
      ensures rc == if 0 < need && old(buf.Length) + need <= MAX_BUF then 0 else BAD_ARGS
      ensures rc == 0 ==> Space() >= old(Space()) + need
      ensures rc != 0 ==> buf == old(buf) && start == old(start) && end == old(end)
    {
      if need <= 0 || need > MAX_BUF {
        return BAD_ARGS;
      }
      rc := GrowSize(buf.Length + need);
    }

    // memcpy behind the contents.
    method Append(str: string)
      requires Valid() && |str| <= Space()
      modifies this`end, buf
      ensures Valid() && Contents() == old(Contents()) + str && end == old(end) + |str|
    {
      forall i | 0 <= i < |str| {
        buf[end + i] := str[i];
      }
      end := end + |str|;
    }

    /**
      rPutBlockToBuf: the contents gain as many of the characters as it reports: all of them
      if there is room, or the buffer may grow for them, and what there is room for if not.
    */
    method PutBlock(str: string) returns (bytes: int)
      requires Valid()
      modifies this, buf
      ensures Valid() && (buf == old(buf) || fresh(buf))
      ensures |str| > MAXINT ==> bytes == BAD_ARGS && Contents() == old(Contents())
      ensures |str| <= MAXINT ==> 0 <= bytes <= |str| && Contents() == old(Contents()) + str[..bytes]
      ensures |str| <= MAXINT ==> bytes == if |str| <= old(Space()) || old(end) + |str| <= MAX_BUF then |str| else old(Space())
    {
      if |str| > MAXINT {
        return BAD_ARGS;
      }
      bytes := 0;
      ghost var was := Contents();
      var rest := str;
      while |rest| > 0
        invariant Valid() && 0 <= bytes <= |str| && rest == str[bytes..] && (buf == old(buf) || fresh(buf))
        invariant Contents() == was + str[..bytes]
        invariant bytes == 0 ==> buf == old(buf) && start == old(start) && end == old(end)
        invariant 0 < bytes < |str| ==> buf == old(buf) && bytes == old(Space()) && end == buf.Length
        invariant bytes == |str| > 0 ==> |str| <= old(Space()) || old(end) + |str| <= MAX_BUF
        decreases |rest|
      {
        var len := if Space() < |rest| then Space() else |rest|;
        if len <= 0 {
          var rc := Grow(|rest|);
          if rc < 0 {
            break;
          }
          len := if Space() < |rest| then Space() else |rest|;
        }
        Sliced(was, str, bytes, len);
        Append(rest[..len]);
        rest := rest[len..];
        bytes := bytes + len;
      }
      if end < buf.Length {
        buf[end] := '\0';
      }
    }

    /** rPutCharToBuf */
    method PutChar(c: char) returns (ok: bool)
      requires Valid()
      modifies this, buf
      ensures Valid() && (buf == old(buf) || fresh(buf))
      ensures Contents() == if ok then old(Contents()) + [c] else old(Contents())
      ensures ok <==> old(Space()) > 0 || old(buf.Length) < MAX_BUF
    {
      if Space() < 1 {
        var rc := Grow(1);
        if rc < 0 {
          return false;
        }
      }
      Append([c]);
      if end < buf.Length {
        buf[end] := '\0';
      }
      return true;
    }

    /** rGetBlockFromBuf: the first characters of the contents, as many as there are. */
    method GetBlock(size0: nat) returns (data: string)
      requires Valid()
      modifies this`start
      ensures Valid() && data + Contents() == old(Contents())
      ensures |data| == if size0 < |old(Contents())| then size0 else |old(Contents())|
    {
      data := "";
      var size := size0;
      while size > 0
        invariant Valid() && old(start) <= start && data == buf[old(start)..start] && |data| + size == size0 && size >= 0
        decreases size
      {
        var len := if end - start < size then end - start else size;
        if len <= 0 {
          break;
        }
        data := data + buf[start..start + len];
        start := start + len;
        size := size - len;
      }
      assert data + buf[start..end] == buf[old(start)..end];
    }

    /** rGetCharFromBuf */
    method GetChar() returns (c: int)
      requires Valid()
      modifies this`start
      ensures Valid()
      ensures if old(Contents()) == "" then c == -1 && Contents() == "" else c == old(Contents())[0] as int && Contents() == old(Contents())[1..]
    {
      if start == end {
        return -1;
      }
      c := buf[start] as int;
      start := start + 1;
    }
  }

  lemma Sliced(a: string, s: string, i: int, n: int)
    requires 0 <= i && 0 <= n && i + n <= |s|
    ensures a + s[..i] + s[i..][..n] == a + s[..i + n]
  {
  }

  lemma MaxIsPower()
    ensures Pow2(23) == MAX_BUF && MAX_BUF <= Pow2(WORD - 1)
  {
    assert Pow2(10) == 1024 && Pow2(20) == 1024 * 1024;
    Pow2Monotone(23, WORD - 1);
  }
}
