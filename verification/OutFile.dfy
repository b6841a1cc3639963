/** A seekable output file, as the writers use `FILE*`: `fseek`, `fwrite`, `ftell`. */
module OutFile {
  import opened Bytes

  class File {
    var data: bytes
    var pos: nat

    constructor ()
      ensures data == [] && pos == 0
    {
      data, pos := [], 0;
    }

    /** `fseek(file, p, SEEK_SET)`; seeking past the end does not extend the file. */
    method Seek(p: nat)
      modifies this
      ensures data == old(data) && pos == p
    {
      pos := p;
    }

    /** `fwrite` of a whole block. */
    method Write(bs: bytes)
      modifies this
      ensures data == WriteAt(old(data), old(pos), bs)
      ensures pos == old(pos) + |bs|
    {
      data := WriteAt(data, pos, bs);
      pos := pos + |bs|;
    }

    /** `dump_align`: zero bytes up to the next multiple of `align`, and nothing when
        `align` is not a power of two. */
    method DumpAlign(align: int)
      modifies this
      ensures if IsPow2(align) then
                data == WriteAt(old(data), old(pos), Padding(old(pos), align))
                && pos == old(pos) + |Padding(old(pos), align)|
              else data == old(data) && pos == old(pos)
      ensures IsPow2(align) ==>
                && pos % align == 0 && old(pos) <= pos < old(pos) + align
                && data == WriteAt(old(data), old(pos), Zeros(pos - old(pos)))
    {
      if !IsPow2(align) {
        return;
      }
      PadReaches(pos, align);
      WriteNothing(data, pos);
      var rem := pos % align;
      if rem > 0 {
        Write(Zeros(align - rem));
      }
    }
  }

  predicate IsPow2(n: int) {
    n == 1 || (n > 1 && n % 2 == 0 && IsPow2(n / 2))
  }

  function Pow2(k: nat): nat {
    if k == 0 then 1 else 2 * Pow2(k - 1)
  }

  lemma {:induction false} Pow2Is(k: nat)
    ensures IsPow2(Pow2(k)) && Pow2(k) >= 1
  {
    hide IsPow2;
    OneIs();
    if k > 0 {
      Pow2Is(k - 1);
      TwiceIs(Pow2(k - 1));
    }
  }

  lemma OneIs()
    ensures IsPow2(1)
  {
  }

  lemma TwiceIs(x: nat)
    requires IsPow2(x) && x >= 1
    ensures IsPow2(2 * x)
  {
    assert 2 * x / 2 == x;
  }

  lemma {:induction false} Pow2Of(n: int) returns (k: nat)
    requires IsPow2(n)
    ensures n == Pow2(k)
    decreases n
  {
    if n == 1 {
      k := 0;
    } else {
      k := Pow2Of(n / 2);
      k := k + 1;
    }
  }

  /** An alignment is accepted if and only if it is a power of two. */
  lemma AcceptedIff(n: int)
    ensures IsPow2(n) <==> exists k: nat :: n == Pow2(k)
  {
    if IsPow2(n) {
      var k := Pow2Of(n);
    }
    if k: nat :| n == Pow2(k) {
      Pow2Is(k);
    }
  }

  lemma PadReaches(pos: nat, align: nat)
    requires align > 0
    ensures (pos + |Padding(pos, align)|) % align == 0 && |Padding(pos, align)| < align
  {
    if pos % align != 0 {
      DivMod(pos, align);
      MulMod(pos / align + 1, align);
      assert pos + (align - pos % align) == (pos / align + 1) * align;
    }
  }
}
