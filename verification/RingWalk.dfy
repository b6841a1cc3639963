/** `parser_ring_buffer_per_cpu`: collecting the pages of a per-CPU trace ring and the pages
    that hold data, oldest first. */
module RingWalk {
  /** What the kernel image says: the raw `next` pointer of a page (its two low bits are flags)
      and which addresses are kernel addresses. */
  datatype Memory = Memory(next: nat -> nat, kv: nat -> bool)

  /** The per-CPU header. `readerFull` says that the reader page has data. */
  datatype Header = Header(nrPages: nat, pages: nat, head: nat, commit: nat, reader: nat, readerFull: bool)

  /** The walk is skipped for an empty ring, and undefined when the head page is not among the
      collected pages (the index is then never assigned). */
  datatype Outcome = Skipped | Undefined | Walked(pages: seq<nat>, data: seq<nat>)

  /** A pointer without its flag bits. */
  function Clear(a: nat): nat {
    a - a % 4
  }

  /** The pages met from `cur` on, at most `left` of them. */
  function Collect(mem: Memory, cur: nat, left: nat): seq<nat>
    decreases left
  {
    if left == 0 || !mem.kv(cur) then [] else [cur] + Collect(mem, Clear(mem.next(cur)), left - 1)
  }

  /** The head page after the same walk: the target of the last flagged pointer. */
  function RealHead(mem: Memory, cur: nat, left: nat, head: nat): nat
    decreases left
  {
    if left == 0 || !mem.kv(cur) then head
    else
      var raw := mem.next(cur);
      RealHead(mem, Clear(raw), left - 1, if raw % 4 != 0 then Clear(raw) else head)
  }

  /** `buffer_pages`: zero-filled behind the collected pages. */
  function BufferPages(mem: Memory, h: Header): seq<nat> {
    var ps := Collect(mem, h.pages, h.nrPages);
    ps + seq(if |ps| <= h.nrPages then h.nrPages - |ps| else 0, _ => 0)
  }

  /** The first position of `x` from `k` on, or the length. */
  function IndexOf(s: seq<nat>, x: nat, k: nat): (r: nat)
    requires k <= |s|
    ensures k <= r <= |s| && (r < |s| ==> s[r] == x) && forall i :: k <= i < r ==> s[i] != x
    decreases |s| - k
  {
    if k == |s| || s[k] == x then k else IndexOf(s, x, k + 1)
  }

  /** `s` read circularly from position `h`. */
  function Rotated(s: seq<nat>, h: nat): (r: seq<nat>)
    requires h <= |s|
    ensures |r| == |s|
  {
    s[h..] + s[..h]
  }

  /** `s` up to and including the first `x`, or all of it. */
  function UpTo(s: seq<nat>, x: nat): seq<nat> {
    var k := IndexOf(s, x, 0);
    if k < |s| then s[..k + 1] else s
  }

  function DataPages(h: Header, pages: seq<nat>, at: nat): seq<nat>
    requires at <= |pages|
  {
    (if h.readerFull then [h.reader] else [])
    + (if h.reader != h.commit then UpTo(Rotated(pages, at), h.commit) else [])
  }

  function WalkSpec(mem: Memory, h: Header): Outcome {
    if h.nrPages == 0 then Skipped
    else
      var pages := BufferPages(mem, h);
      var at := IndexOf(pages, RealHead(mem, h.pages, h.nrPages, h.head), 0);
      if at == |pages| then Undefined else Walked(pages, DataPages(h, pages, at))
  }

  lemma {:induction false} CollectBound(mem: Memory, cur: nat, left: nat)
    ensures |Collect(mem, cur, left)| <= left
    decreases left
  {
    if left > 0 && mem.kv(cur) {
      CollectBound(mem, Clear(mem.next(cur)), left - 1);
    }
  }

  /** One page further. */
  lemma CollectStep(mem: Memory, cur: nat, left: nat, head: nat)
    requires left > 0 && mem.kv(cur)
    ensures var raw := mem.next(cur);
            && Collect(mem, cur, left) == [cur] + Collect(mem, Clear(raw), left - 1)
            && RealHead(mem, cur, left, head)
               == RealHead(mem, Clear(raw), left - 1, if raw % 4 != 0 then Clear(raw) else head)
  {
    hide Clear;
  }

  lemma CollectEnd(mem: Memory, cur: nat, left: nat, head: nat)
    requires left == 0 || !mem.kv(cur)
    ensures Collect(mem, cur, left) == [] && RealHead(mem, cur, left, head) == head
  {
  }

  /** The collected pages with zeros behind them are the whole buffer. */
  lemma FilledWhole(mem: Memory, h: Header, buf: seq<nat>, i: nat)
    requires i <= |buf| == h.nrPages && Collect(mem, h.pages, h.nrPages) == buf[..i]
    requires forall k :: i <= k < |buf| ==> buf[k] == 0
    ensures buf == BufferPages(mem, h)
  {
    hide Collect;
  }

  /** The first loop: follow `next`, clear the flags, remember the flagged target. */
  method CollectPages(mem: Memory, h: Header) returns (pages: seq<nat>, realHead: nat)
    ensures pages == BufferPages(mem, h)
    ensures realHead == RealHead(mem, h.pages, h.nrPages, h.head)
  {
    hide Collect, RealHead, BufferPages;
    var buf := new nat[h.nrPages](_ => 0);
    var bp, i := h.pages, 0;
    realHead := h.head;
    ghost var ps := Collect(mem, h.pages, h.nrPages);
    assert ps == buf[..0] + ps;
    while mem.kv(bp) && i < h.nrPages
      invariant 0 <= i <= h.nrPages
      invariant ps == buf[..i] + Collect(mem, bp, h.nrPages - i)
      invariant forall k :: i <= k < buf.Length ==> buf[k] == 0
      invariant RealHead(mem, bp, h.nrPages - i, realHead) == RealHead(mem, h.pages, h.nrPages, h.head)
    {
      CollectStep(mem, bp, h.nrPages - i, realHead);
      ghost var rest := Collect(mem, Clear(mem.next(bp)), h.nrPages - i - 1);
      assert ps == (buf[..i] + [bp]) + rest;
      buf[i] := bp;
      assert buf[..i + 1] == buf[..i] + [bp];
      bp := mem.next(bp);
      if bp % 4 != 0 {
        bp := Clear(bp);
        realHead := bp;
      }
      i := i + 1;
    }
    CollectEnd(mem, bp, h.nrPages - i, realHead);
    assert ps == buf[..i];
    FilledWhole(mem, h, buf[..], i);
    pages := buf[..];
  }

  lemma RotatedAt(s: seq<nat>, h: nat, k: nat)
    requires h < |s| && k < |s|
    ensures Rotated(s, h)[k] == s[if h + k < |s| then h + k else h + k - |s|]
  {
  }

  /** `UpTo` stops at position `k`, or nowhere. */
  lemma UpToAt(s: seq<nat>, x: nat, k: nat)
    requires k <= |s| && (forall i :: 0 <= i < k ==> s[i] != x) && (k < |s| ==> s[k] == x)
    ensures UpTo(s, x) == if k < |s| then s[..k + 1] else s
  {
    hide IndexOf;
    assert IndexOf(s, x, 0) == k;
  }

  lemma TakeOne(s: seq<nat>, t: seq<nat>, k: nat)
    requires k < |s|
    ensures (t + s[..k]) + [s[k]] == t + s[..k + 1]
  {
  }

  /** The last loop: from the head page on, wrapping at the end, to the commit page. */
  method WalkData(h: Header, pages: seq<nat>, at: nat) returns (data: seq<nat>)
    requires at < |pages| == h.nrPages
    ensures data == DataPages(h, pages, at)
  {
    hide Rotated, UpTo;
    data := if h.readerFull then [h.reader] else [];
    if h.reader == h.commit {
      return;
    }
    ghost var first, order := data, Rotated(pages, at);
    var index := at;
    ghost var k := 0;
    while true
      invariant 0 <= k < |pages| && 0 <= index < |pages|
      invariant index == if at + k < |pages| then at + k else at + k - |pages|
      invariant data == first + order[..k] && forall i :: 0 <= i < k ==> order[i] != h.commit
      decreases |pages| - k
    {
      RotatedAt(pages, at, k);
      TakeOne(order, first, k);
      data := data + [pages[index]];
      if pages[index] == h.commit {
        UpToAt(order, h.commit, k);
        return;
      }
      index := index + 1;
      if index == h.nrPages {
        index := 0;
      }
      k := k + 1;
      if index == at {
        UpToAt(order, h.commit, k);
        assert order[..k] == order;
        return;
      }
    }
  }

  /** `parser_ring_buffer_per_cpu`. */
  method ParserRingBuffer(mem: Memory, h: Header) returns (r: Outcome)
    ensures r == WalkSpec(mem, h)
  {
    if h.nrPages == 0 {
      return Skipped;
    }
    CollectBound(mem, h.pages, h.nrPages);
    var pages, realHead := CollectPages(mem, h);
    for i := 0 to |pages|
      invariant forall k :: 0 <= k < i ==> pages[k] != realHead
    {
      if realHead == pages[i] {
        assert IndexOf(pages, realHead, 0) == i;
        var data := WalkData(h, pages, i);
        return Walked(pages, data);
      }
    }
    assert IndexOf(pages, realHead, 0) == |pages|;
    return Undefined;
  }

  /** Whatever the memory looks like, at most one page per ring slot is taken besides the reader. */
  lemma WalkBounded(mem: Memory, h: Header)
    ensures WalkSpec(mem, h).Walked? ==> |WalkSpec(mem, h).data| <= h.nrPages + 1
  {
    CollectBound(mem, h.pages, h.nrPages);
  }

  // ---------------------------------------------------------------- a well-formed ring

  function Succ(n: nat, i: nat): nat {
    if i + 1 >= n then 0 else i + 1
  }

  /** `ring` is the circular page list, `hd` the position of the head page: the pointer to the head
      carries flag bits and no other pointer does. */
  ghost predicate IsRing(mem: Memory, ring: seq<nat>, hd: nat) {
    && hd < |ring|
    && (forall i :: 0 <= i < |ring| ==> mem.kv(ring[i]) && ring[i] % 4 == 0)
    && (forall i, j :: 0 <= i < j < |ring| ==> ring[i] != ring[j])
    && (forall i :: 0 <= i < |ring| ==> LinksTo(mem.next(ring[i]), ring[Succ(|ring|, i)], Succ(|ring|, i) == hd))
  }

  ghost predicate LinksTo(raw: nat, target: nat, flagged: bool) {
    raw - raw % 4 == target && (raw % 4 != 0 <==> flagged)
  }

  lemma RingStep(mem: Memory, ring: seq<nat>, hd: nat, i: nat)
    requires IsRing(mem, ring, hd) && i < |ring|
    ensures mem.kv(ring[i]) && Clear(mem.next(ring[i])) == ring[Succ(|ring|, i)]
  {
    assert LinksTo(mem.next(ring[i]), ring[Succ(|ring|, i)], Succ(|ring|, i) == hd);
  }

  lemma {:induction false} CollectRing(mem: Memory, ring: seq<nat>, hd: nat, i: nat)
    requires IsRing(mem, ring, hd) && i < |ring|
    ensures Collect(mem, ring[i], |ring| - i) == ring[i..]
    decreases |ring| - i
  {
    RingStep(mem, ring, hd, i);
    assert ring[i..] == [ring[i]] + ring[i + 1..];
    hide IsRing;
    if i + 1 < |ring| {
      CollectRing(mem, ring, hd, i + 1);
    }
  }

  /** From position `i` on, the flagged head is found if its pointer is still ahead; otherwise the
      head found so far stays. */
  lemma {:induction false} HeadRing(mem: Memory, ring: seq<nat>, hd: nat, i: nat, head: nat)
    requires IsRing(mem, ring, hd) && i < |ring|
    ensures RealHead(mem, ring[i], |ring| - i, head) == if hd == 0 || i < hd then ring[hd] else head
    decreases |ring| - i
  {
    var raw := mem.next(ring[i]);
    assert LinksTo(raw, ring[Succ(|ring|, i)], Succ(|ring|, i) == hd);
    if i + 1 < |ring| {
      HeadRing(mem, ring, hd, i + 1, if raw % 4 != 0 then Clear(raw) else head);
    }
  }

  /** The index of the `i`-th page after page `hd`. */
  function Around(n: nat, hd: nat, i: nat): (k: nat)
    requires hd < n && i < n
    ensures k < n
  {
    if hd + i < n then hd + i else hd + i - n
  }

  lemma SegmentPages(ring: seq<nat>, hd: nat, commit: nat)
    requires hd < |ring|
    ensures var s := UpTo(Rotated(ring, hd), commit);
            && 0 < |s| <= |ring|
            && (forall i :: 0 <= i < |s| ==> s[i] == ring[Around(|ring|, hd, i)])
            && (forall i :: 0 <= i < |s| - 1 ==> s[i] != commit)
            && (s[|s| - 1] == commit || |s| == |ring|)
  {
    hide Around;
    var r := Rotated(ring, hd);
    forall i | 0 <= i < |r| ensures r[i] == ring[Around(|ring|, hd, i)] {
      RotatedPlace(ring, hd, i);
    }
  }

  lemma RotatedPlace(ring: seq<nat>, hd: nat, i: nat)
    requires hd < |ring| && i < |ring|
    ensures Rotated(ring, hd)[i] == ring[Around(|ring|, hd, i)]
  {
  }

  lemma AroundDiffers(ring: seq<nat>, hd: nat, i: nat, j: nat)
    requires hd < |ring| && i < j < |ring| && forall a, b :: 0 <= a < b < |ring| ==> ring[a] != ring[b]
    ensures ring[Around(|ring|, hd, i)] != ring[Around(|ring|, hd, j)]
  {
  }

  lemma CommitLast(ring: seq<nat>, hd: nat, s: seq<nat>, commit: nat)
    requires hd < |ring| && 0 < |s| <= |ring| && (s[|s| - 1] == commit || |s| == |ring|)
    requires forall i :: 0 <= i < |s| ==> s[i] == ring[Around(|ring|, hd, i)]
    requires forall i :: 0 <= i < |s| - 1 ==> s[i] != commit
    ensures commit in ring <==> s[|s| - 1] == commit
    ensures commit !in ring ==> |s| == |ring|
  {
    if commit in ring && |s| == |ring| {
      var j :| 0 <= j < |ring| && ring[j] == commit;
      var i := if j >= hd then j - hd else j + |ring| - hd;
      assert Around(|ring|, hd, i) == j;
      assert s[i] == commit;
    }
  }

  lemma SegmentExact(ring: seq<nat>, hd: nat, commit: nat)
    requires hd < |ring| && forall i, j :: 0 <= i < j < |ring| ==> ring[i] != ring[j]
    ensures IsSegment(ring, hd, commit, UpTo(Rotated(ring, hd), commit))
  {
    hide UpTo, Rotated, Around;
    var s := UpTo(Rotated(ring, hd), commit);
    SegmentPages(ring, hd, commit);
    CommitLast(ring, hd, s, commit);
    forall i, j | 0 <= i < j < |s| ensures s[i] != s[j] {
      AroundDiffers(ring, hd, i, j);
    }
  }

  /** `s` is the ring read circularly from page `hd`: element `i` is the `i`-th page after it, the commit
      page appears only at the end, no page appears twice, and without a commit page it is a full turn. */
  ghost predicate IsSegment(ring: seq<nat>, hd: nat, commit: nat, s: seq<nat>)
    requires hd < |ring|
  {
    && 0 < |s| <= |ring|
    && (forall i :: 0 <= i < |s| ==> s[i] == ring[Around(|ring|, hd, i)])
    && (forall i, j :: 0 <= i < j < |s| ==> s[i] != s[j])
    && (forall i :: 0 <= i < |s| - 1 ==> s[i] != commit)
    && (commit in ring <==> s[|s| - 1] == commit)
    && (commit !in ring ==> |s| == |ring|)
  }

  /** For a well-formed ring the data pages are the reader page, if it has data, and behind it, unless
      the reader page is the commit page, the circular segment from the flagged head page to the commit
      page inclusive. */
  lemma RingWalked(mem: Memory, h: Header, ring: seq<nat>, hd: nat)
    requires IsRing(mem, ring, hd) && h.nrPages == |ring| && h.pages == ring[0]
    ensures WalkSpec(mem, h).Walked? && WalkSpec(mem, h).pages == ring
    ensures var data, r := WalkSpec(mem, h).data, if h.readerFull then 1 else 0;
            && (h.readerFull ==> |data| > 0 && data[0] == h.reader)
            && (h.reader == h.commit ==> |data| == r)
            && (h.reader != h.commit ==> |data| > r && IsSegment(ring, hd, h.commit, data[r..]))
  {
    hide UpTo, Rotated, IsSegment;
    RingFound(mem, h, ring, hd);
    RingDistinct(mem, ring, hd);
    SegmentExact(ring, hd, h.commit);
    SegmentSome(ring, hd, h.commit);
    var s := UpTo(Rotated(ring, hd), h.commit);
    assert ([h.reader] + s)[1..] == s && ([] + s)[0..] == s;
  }

  lemma SegmentSome(ring: seq<nat>, hd: nat, commit: nat)
    requires hd < |ring| && IsSegment(ring, hd, commit, UpTo(Rotated(ring, hd), commit))
    ensures |UpTo(Rotated(ring, hd), commit)| > 0
  {
  }

  lemma RingDistinct(mem: Memory, ring: seq<nat>, hd: nat)
    requires IsRing(mem, ring, hd)
    ensures hd < |ring| && forall i, j :: 0 <= i < j < |ring| ==> ring[i] != ring[j]
  {
  }

  lemma RingFound(mem: Memory, h: Header, ring: seq<nat>, hd: nat)
    requires IsRing(mem, ring, hd) && h.nrPages == |ring| && h.pages == ring[0]
    ensures WalkSpec(mem, h) == Walked(ring, DataPages(h, ring, hd))
  {
    hide DataPages;
    CollectRing(mem, ring, hd, 0);
    HeadRing(mem, ring, hd, 0, h.head);
    assert ring[0..] == ring;
    assert BufferPages(mem, h) == ring;
    assert IndexOf(ring, ring[hd], 0) == hd;
  }
}
