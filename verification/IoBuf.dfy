/** mg_iobuf: a growable byte buffer that is edited in place. Allocation always succeeds here. */
module IoBuffer {
  import opened Bytes
  import opened Modulo

  /** The bytes left by mg_iobuf_del, with its clamping of the range. */
  function Deleted(s: Str, ofs: nat, n: nat): Str {
    if ofs > |s| then s
    else if ofs + n > |s| then s[..ofs]
    else s[..ofs] + s[ofs + n..]
  }

  function RoundUp(size: nat, align: nat): (r: nat)
    ensures size <= r && (size == 0 ==> r == 0)
  {
    if align == 0 then size else
      RoundUpBound(size, align);
      (size + align - 1) / align * align
  }

  /** The least multiple of the alignment that is large enough; without alignment, the size itself. */
  lemma RoundUpIsLeast(size: nat, align: nat, q: nat)
    ensures align == 0 ==> RoundUp(size, align) == size
    ensures align > 0 ==> RoundUp(size, align) % align == 0
    ensures align > 0 && q * align >= size ==> RoundUp(size, align) <= q * align
  {
    if align > 0 {
      var n := size + align - 1;
      var k, r := n / align, n % align;
      assert n == align * k + r;
      MultipleOf(k, align);
      if k > q {
        OneMultipleMore(k, q, align);
      }
    }
  }

  lemma OneMultipleMore(k: nat, q: nat, align: nat)
    requires k > q
    ensures q * align + align <= k * align
  {
    MulGap(align, q, k);
    assert align * q == q * align && align * k == k * align;
  }

  lemma MultipleOf(k: nat, align: nat)
    requires align > 0
    ensures k * align % align == 0
  {
    ModUnique(k * align, align, k, 0);
  }

  /** The bytes left are those whose index is outside of the range, in their order. */
  lemma DeletedBytes(s: Str, ofs: nat, n: nat, k: nat)
    ensures |Deleted(s, ofs, n)| == if |s| <= ofs then |s| else if |s| <= ofs + n then ofs else |s| - n
    ensures k < |Deleted(s, ofs, n)| ==>
      (k < ofs || k + n < |s|) && Deleted(s, ofs, n)[k] == s[if k < ofs then k else k + n]
  {
  }

  lemma RoundUpBound(size: nat, align: nat)
    requires align > 0
    ensures size <= (size + align - 1) / align * align
    ensures size == 0 ==> (size + align - 1) / align * align == 0
  {
    var q, r := (size + align - 1) / align, (size + align - 1) % align;
    assert size + align - 1 == align * q + r;
    if size == 0 { assert q == 0; }
  }

  /** The string `s` with `bytes` written over it at `dst`. */
  function Overwritten(s: Str, dst: nat, bytes: Str): (r: Str)
    requires dst + |bytes| <= |s|
    ensures |r| == |s|
  {
    s[..dst] + bytes + s[dst + |bytes|..]
  }

  lemma OverwrittenNothing(s: Str, dst: nat, nothing: Str)
    requires dst <= |s| && nothing == []
    ensures Overwritten(s, dst, nothing) == s
  {
  }

  lemma Taken(a: array<Byte>, n: nat)
    requires n <= a.Length
    ensures a[..n] == a[..][..n]
  {
  }

  lemma Sliced(a: array<Byte>, i: nat, j: nat)
    requires i <= j <= a.Length
    ensures a[i..j] == a[..][i..j]
  {
  }

  lemma OverwrittenEnds(s: Str, n: nat, dst: nat, bytes: Str)
    requires n <= dst && dst + |bytes| <= |s|
    ensures var r := Overwritten(s, dst, bytes)[..dst + |bytes|]; r[..n] == s[..n] && r[dst..] == bytes
  {
  }

  lemma OverwrittenTake(s: Str, dst: nat, bytes: Str, len: nat)
    requires dst + |bytes| <= len <= |s|
    ensures Overwritten(s, dst, bytes)[..len] == Overwritten(s[..len], dst, bytes)
  {
  }

  lemma SliceOfTake(s: Str, len: nat, i: nat, j: nat)
    requires i <= j <= len <= |s|
    ensures s[..len][i..j] == s[i..j]
  {
  }

  /** Room for `n` bytes at `ofs`, in a buffer that holds `len`. */
  lemma Reserved(s: Str, ofs: nat, len: nat, n: nat)
    requires ofs <= len && len + n <= |s|
    ensures var r := Overwritten(s, ofs + n, s[ofs..len]);
      r[..len + n][..ofs] == s[..len][..ofs] && r[..len + n][ofs + n..] == s[..len][ofs..]
  {
  }

  lemma DeletedIsGap(s: Str, ofs: nat, n: nat, o: nat, n': nat)
    requires o == (if ofs > |s| then |s| else ofs) && n' == if o + n > |s| then |s| - o else n
    ensures Deleted(s, ofs, n) == s[..o] + s[o + n'..]
  {
  }

  lemma ClosedGap(s: Str, ofs: nat, len: nat, n: nat)
    requires ofs + n <= len <= |s|
    ensures Overwritten(s, ofs, s[ofs + n..len])[..len - n] == s[..len][..ofs] + s[..len][ofs + n..]
  {
  }

  class IoBuf {
    var buf: array<Byte>   // a null pointer is an empty array; the field size is buf.Length
    var len: nat
    const align: nat

    ghost predicate Valid()
      reads this
    {
      len <= buf.Length
    }

    ghost function Contents(): Str
      reads this, buf
      requires Valid()
    {
      buf[..len]
    }

    constructor (size: nat, align: nat)
      ensures Valid() && fresh(buf) && Contents() == []
    {
      this.align := align;
      buf := new Byte[RoundUp(size, align)];
      len := 0;
    }

    /** memmove inside the buffer. */
    method Move(dst: nat, src: nat, n: nat)
      requires dst + n <= buf.Length && src + n <= buf.Length
      modifies buf
      ensures buf[..] == Overwritten(old(buf[..]), dst, old(buf[..])[src..src + n])
    {
      var moved := buf[src..src + n];
      Sliced(buf, src, src + n);
      Copy(dst, moved);
    }

    /** memcpy into the buffer. */
    method Copy(dst: nat, bytes: Str)
      requires dst + |bytes| <= buf.Length
      modifies buf
      ensures buf[..] == Overwritten(old(buf[..]), dst, bytes)
    {
      forall k | 0 <= k < |bytes| {
        buf[dst + k] := bytes[k];
      }
    }

    /**
     * mg_iobuf_resize: keeps what fits. Shrunk to less than its contents, but not to nothing, the buffer keeps its
     * old length, which is then beyond its end.
     */
    method Resize(size: nat)
      requires Valid()
      modifies this, buf
      ensures (buf == old(buf) || fresh(buf)) && buf.Length == RoundUp(size, align)
      ensures len == if buf.Length == 0 then 0 else old(len)
      ensures var kept := if old(len) <= buf.Length then old(len) else buf.Length;
        buf[..kept] == old(Contents())[..kept]
      ensures Valid() <==> RoundUp(size, align) == 0 || old(len) <= RoundUp(size, align)
    {
      hide RoundUp;
      var newSize := RoundUp(size, align);
      if newSize == 0 {
        buf := new Byte[0];
        len := 0;
      } else if newSize != buf.Length {
        var p := new Byte[newSize];
        var kept := if newSize < len then newSize else len;
        forall k | 0 <= k < kept {
          p[k] := buf[k];
        }
        buf := p;
      }
    }

    /**
     * mg_iobuf_add of given bytes. Beyond the contents the rounding of the size has to leave room for the gap, whose
     * bytes are not specified; the code does not check that.
     */
    method Add(ofs: nat, bytes: Str)
      requires Valid() && (ofs <= len || ofs + |bytes| <= RoundUp(len + |bytes|, align))
      modifies this, buf
      ensures Valid() && (buf == old(buf) || fresh(buf))
      ensures ofs <= old(len) ==> Contents() == old(Contents())[..ofs] + bytes + old(Contents())[ofs..]
      ensures ofs > old(len) ==>
        len == ofs + |bytes| && Contents()[..old(len)] == old(Contents()) && Contents()[ofs..] == bytes
    {
      if ofs > len {
        AddBeyond(ofs, bytes);
        return;
      }
      Reserve(ofs, |bytes|);
      ghost var s := buf[..];
      Taken(buf, len);
      Copy(ofs, bytes);
      Taken(buf, len);
      OverwrittenTake(s, ofs, bytes, len);
    }

    method AddBeyond(ofs: nat, bytes: Str)
      requires Valid() && len < ofs && ofs + |bytes| <= RoundUp(len + |bytes|, align)
      modifies this, buf
      ensures Valid() && (buf == old(buf) || fresh(buf)) && len == ofs + |bytes|
      ensures Contents()[..old(len)] == old(Contents()) && Contents()[ofs..] == bytes
    {
      hide RoundUp;
      ghost var before := Contents();
      Resize(len + |bytes|);
      assert before[..len] == before;
      ghost var s := buf[..];
      Taken(buf, len);
      Copy(ofs, bytes);
      len := ofs + |bytes|;
      Taken(buf, len);
      OverwrittenEnds(s, |before|, ofs, bytes);
    }

    /** mg_iobuf_add of a null buffer: makes room for `n` unspecified bytes. */
    method Reserve(ofs: nat, n: nat)
      requires Valid() && ofs <= len
      modifies this, buf
      ensures Valid() && (buf == old(buf) || fresh(buf)) && len == old(len) + n
      ensures Contents()[..ofs] == old(Contents())[..ofs]
      ensures Contents()[ofs + n..] == old(Contents())[ofs..]
    {
      hide RoundUp, Overwritten;
      ghost var before := Contents();
      Resize(len + n);
      assert before[..len] == before;
      ghost var s := buf[..];
      Taken(buf, len);
      Reserved(s, ofs, len, n);
      if ofs < len {
        Move(ofs + n, ofs, len - ofs);
      } else {
        OverwrittenNothing(s, ofs + n, s[ofs..len]);
      }
      len := len + n;
      Taken(buf, len);
    }

    /** mg_iobuf_del: closes the gap in place and clears the freed tail. */
    method Del(ofs: nat, n: nat)
      requires Valid()
      modifies this, buf
      ensures Valid() && buf == old(buf)
      ensures Contents() == Deleted(old(Contents()), ofs, n)
      ensures forall k :: len <= k < old(len) ==> buf[k] == 0
    {
      hide Overwritten, Deleted;
      ghost var s := buf[..];
      Taken(buf, len);
      var o := if ofs > len then len else ofs;
      var n' := if o + n > len then len - o else n;
      DeletedIsGap(Contents(), ofs, n, o, n');
      ClosedGap(s, o, len, n');
      Move(o, o + n', len - o - n');
      Taken(buf, len - n');
      Clear(len - n', len);
      len := len - n';
    }

    /** memset(&io->buf[from], 0, to - from) */
    method Clear(from: nat, to: nat)
      requires from <= to <= buf.Length
      modifies buf
      ensures buf[..from] == old(buf[..from])
      ensures forall k :: from <= k < to ==> buf[k] == 0
    {
      forall k | from <= k < to {
        buf[k] := 0;
      }
    }

    /** A move towards the front: the bytes in between are overwritten, those behind the source stay. */
    method MoveDown(dst: nat, src: nat, n: nat)
      requires Valid() && dst <= src && src + n <= len
      modifies buf
      ensures Valid()
      ensures buf[dst..dst + n] == old(Contents())[src..src + n]
      ensures Contents()[..dst + n] == old(Contents())[..dst] + old(Contents())[src..src + n]
      ensures Contents()[src + n..] == old(Contents())[src + n..]
    {
      ghost var s := buf[..];
      Taken(buf, len);
      SliceOfTake(s, len, src, src + n);
      Move(dst, src, n);
      Taken(buf, len);
      Sliced(buf, dst, dst + n);
      OverwrittenTake(s, dst, s[src..src + n], len);
    }
  }
}
