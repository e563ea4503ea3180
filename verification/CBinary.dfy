/** Bounded reads over a borrowed buffer: `bytes` from `base` on, `len` octets long. */
module CBinary {
  import opened Bytes
  import opened Results
  import opened Status

  /** A window of a window. */
  lemma SubWindow(bytes: array<Byte>, base: nat, len: nat, lo: nat, hi: nat)
    requires base + len <= bytes.Length && lo <= hi <= len
    ensures bytes[base..base + len][lo..hi] == bytes[base + lo..base + hi]
  {
    var inner, outer := bytes[base..base + len][lo..hi], bytes[base + lo..base + hi];
    assert forall k :: 0 <= k < hi - lo ==> inner[k] == bytes[base + lo + k] == outer[k];
  }

  /** Zeros in a window are zeros in its buffer. */
  lemma ZeroedWindow(bytes: array<Byte>, base: nat, len: nat, lo: nat, hi: nat)
    requires base + len <= bytes.Length && lo <= hi <= len
    ensures Zeroed(bytes[base..base + len], lo, hi) <==> forall k :: base + lo <= k < base + hi ==> bytes[k] == 0
  {
    var window := bytes[base..base + len];
    assert forall k :: base + lo <= k < base + hi ==> bytes[k] == window[k - base];
  }

  method BytesEqual(left: array?<Byte>, leftAt: nat, right: array?<Byte>, rightAt: nat, len: nat)
    returns (equal: bool)
    requires left != null && right != null ==> leftAt + len <= left.Length && rightAt + len <= right.Length
    ensures equal <==>
            left != null && right != null && left[leftAt..leftAt + len] == right[rightAt..rightAt + len]
  {
    if left == null || right == null {
      return false;
    }
    for index := 0 to len
      invariant left[leftAt..leftAt + index] == right[rightAt..rightAt + index]
    {
      if left[leftAt + index] != right[rightAt + index] {
        assert left[leftAt..leftAt + len][index] != right[rightAt..rightAt + len][index];
        return false;
      }
    }
    return true;
  }

  /** `right` is a string literal, or NULL. */
  method BytesMatch(left: array?<Byte>, leftAt: nat, right: Option<Octets>, len: nat) returns (equal: bool)
    requires left != null && right.Some? ==> leftAt + len <= left.Length && len <= |right.value|
    ensures equal <==> left != null && right.Some? && left[leftAt..leftAt + len] == right.value[..len]
  {
    if left == null || right.None? {
      return false;
    }
    for index := 0 to len
      invariant left[leftAt..leftAt + index] == right.value[..index]
    {
      if left[leftAt + index] != right.value[index] {
        assert left[leftAt..leftAt + len][index] != right.value[..len][index];
        return false;
      }
    }
    return true;
  }

  method AllZeroes(bytes: array?<Byte>, start: nat, len: nat) returns (zero: bool)
    requires bytes != null ==> start + len <= bytes.Length
    ensures bytes == null ==> !zero
    ensures bytes != null ==> (zero <==> forall k :: start <= k < start + len ==> bytes[k] == 0)
  {
    if bytes == null {
      return false;
    }
    for index := 0 to len
      invariant forall k :: start <= k < start + index ==> bytes[k] == 0
    {
      if bytes[start + index] != 0 {
        return false;
      }
    }
    return true;
  }

  method RangeAvailable(offset: nat, len: nat, totalLen: nat, end: Cell?<nat>) returns (available: bool)
    modifies end
    ensures available <==> offset + len <= totalLen
    ensures end != null ==> end.value == if available then offset + len else old(end.value)
  {
    if offset > totalLen {
      return false;
    }
    if len > totalLen - offset {
      return false;
    }
    if end != null {
      end.value := offset + len;
    }
    return true;
  }

  /** `sizeMax` is the platform's SIZE_MAX. */
  method CheckedAddSize(left: nat, right: nat, sizeMax: nat, out: Cell?<nat>) returns (status: Status)
    requires left <= sizeMax && right <= sizeMax
    modifies out
    ensures status == if out == null then ERR_INVALID_ARGUMENT
                      else if left + right <= sizeMax then OK else ERR_OVERFLOW
    ensures out != null ==> out.value == if status.OK? then left + right else old(out.value)
  {
    if out == null {
      return ERR_INVALID_ARGUMENT;
    }
    if right > sizeMax - left {
      return ERR_OVERFLOW;
    }
    out.value := left + right;
    return OK;
  }

  method ReadU16Le(bytes: array?<Byte>, base: nat, len: nat, offset: nat) returns (status: Status, value: U16)
    requires bytes != null ==> base + len <= bytes.Length
    ensures bytes == null ==> status == ERR_INVALID_ARGUMENT
    ensures bytes != null ==> status == if offset + 2 <= len then OK else ERR_BOUNDS
    ensures status.OK? ==> value == U16At(bytes[base..base + len], offset)
  {
    if bytes == null {
      return ERR_INVALID_ARGUMENT, 0;
    }
    var available := RangeAvailable(offset, 2, len, null);
    if !available {
      return ERR_BOUNDS, 0;
    }
    var at := base + offset;
    ShiftOr16(bytes[at], bytes[at + 1]);
    U16Octets(bytes[base..base + len], offset);
    return OK, BitOr(bytes[at], ShiftLeft(bytes[at + 1], 8));
  }

  method ReadU32Le(bytes: array?<Byte>, base: nat, len: nat, offset: nat) returns (status: Status, value: U32)
    requires bytes != null ==> base + len <= bytes.Length
    ensures bytes == null ==> status == ERR_INVALID_ARGUMENT
    ensures bytes != null ==> status == if offset + 4 <= len then OK else ERR_BOUNDS
    ensures status.OK? ==> value == U32At(bytes[base..base + len], offset)
  {
    hide BitOr, ShiftLeft;
    if bytes == null {
      return ERR_INVALID_ARGUMENT, 0;
    }
    var available := RangeAvailable(offset, 4, len, null);
    if !available {
      return ERR_BOUNDS, 0;
    }
    var at := base + offset;
    ShiftOr32(bytes[at], bytes[at + 1], bytes[at + 2], bytes[at + 3]);
    U32Halves(bytes[base..base + len], offset);
    U16Octets(bytes[base..base + len], offset);
    U16Octets(bytes[base..base + len], offset + 2);
    return OK, BitOr(BitOr(BitOr(bytes[at], ShiftLeft(bytes[at + 1], 8)), ShiftLeft(bytes[at + 2], 16)),
                     ShiftLeft(bytes[at + 3], 24));
  }
}
