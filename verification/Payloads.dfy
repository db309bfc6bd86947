// The bytes of a heap as its clients see them: what one call does to a payload, and what
// it leaves of the others.

module Payloads {
  import opened Bits
  import opened Blocks
  import opened FreeLists
  import opened Regions

  type Byte = b: nat | b < 256

  // Of the reserved bytes, at most the n at offset at have changed.
  ghost predicate OnlyWritten(memory: seq<Byte>, memory': seq<Byte>, at: int, n: nat) {
    && 0 <= at <= at + n <= |memory| && |memory'| == |memory|
    && (forall k :: 0 <= k < |memory| && !(at <= k < at + n) ==> memory'[k] == memory[k])
  }

  ghost predicate Overwritten(memory: seq<Byte>, memory': seq<Byte>, at: int, data: seq<Byte>) {
    OnlyWritten(memory, memory', at, |data|) && memory'[at..at + |data|] == data
  }

  // Of every live chunk, the bytes that malloc asked the free list for lie below the
  // commit mark, and the payload as requested lies within them.
  ghost predicate PayloadsMarked(headers: map<int, Header>, counts: map<int, nat>, asked: map<int, nat>, mark: nat) {
    forall p {:trigger p in asked} :: p in headers ==>
      p in asked && p in counts && PayloadMarked(p, headers[p], counts[p], asked[p], mark)
  }

  ghost predicate PayloadMarked(p: int, h: Header, count: nat, asked: nat, mark: nat) {
    && count + h.padding + HEADER_SIZE <= asked <= h.size && NODE_SIZE <= asked
    && p - h.padding - HEADER_SIZE + asked <= mark
  }

  // For the payload r, the commit mark has moved past the bytes that were asked for it,
  // and perhaps past the record of a node after them.
  ghost predicate MarkMoved(end: nat, end': nat, r: int, h: Header, asked: nat) {
    var e := r - h.padding - HEADER_SIZE + asked;
    0 <= e && (end' == Max(end, e) || end' == Max(end, e + NODE_SIZE))
  }

  // ---- The commit mark over a run

  // Where the bytes end that were asked for the payloads there are
  ghost function AskedEnds(headers: map<int, Header>, asked: map<int, nat>): set<int> {
    set p | p in headers && p in asked :: p - headers[p].padding - HEADER_SIZE + asked[p]
  }

  datatype Extent = Extent(mark: nat, ends: set<int>)

  // The mark only moves forward, and only to such an end or to the end of the record of a
  // node that begins there; it is never before any of them.
  ghost predicate ExtentStep(x: Extent, x': Extent) {
    && x'.mark >= x.mark && (forall e :: e in x'.ends ==> e <= x'.mark)
    && (x'.mark == x.mark || exists e :: e in x'.ends && (x'.mark == e || x'.mark == e + NODE_SIZE))
  }

  ghost predicate Extents(xs: seq<Extent>) {
    xs != [] && forall i :: 0 <= i < |xs| - 1 ==> ExtentStep(xs[i], xs[i + 1])
  }

  // Over a run, the mark is where it began, or at most a record past the largest end there
  // has been.
  lemma {:induction false} MarkIsTight(xs: seq<Extent>, i: nat)
    requires Extents(xs) && i < |xs|
    ensures xs[i].mark >= xs[0].mark
    ensures forall j, e {:trigger e in xs[j].ends} :: 0 < j <= i && e in xs[j].ends ==> e <= xs[i].mark
    ensures xs[i].mark == xs[0].mark ||
            exists j, e {:trigger e in xs[j].ends} ::
              0 < j <= i && e in xs[j].ends && e <= xs[i].mark <= e + 24
  {
    if i > 0 {
      MarkIsTight(xs, i - 1);
      assert ExtentStep(xs[i - 1], xs[i]);
    }
  }

  lemma MovedIsStep(end: nat, end': nat, r: int, headers: map<int, Header>, asked: map<int, nat>)
    requires r in headers && r in asked && MarkMoved(end, end', r, headers[r], asked[r])
    ensures end' == end || exists e :: e in AskedEnds(headers, asked) && (end' == e || end' == e + NODE_SIZE)
  {
    var e := r - headers[r].padding - HEADER_SIZE + asked[r];
    assert e in AskedEnds(headers, asked);
  }

  lemma EndsAreBelow(headers: map<int, Header>, counts: map<int, nat>, asked: map<int, nat>, mark: nat)
    requires PayloadsMarked(headers, counts, asked, mark)
    ensures forall e :: e in AskedEnds(headers, asked) ==> e <= mark
  {
    forall e | e in AskedEnds(headers, asked)
      ensures e <= mark
    {
      var p :| p in headers && p in asked && e == p - headers[p].padding - HEADER_SIZE + asked[p];
      assert PayloadMarked(p, headers[p], counts[p], asked[p], mark);
    }
  }

  lemma PayloadAdded(headers: map<int, Header>, counts: map<int, nat>, asked: map<int, nat>, mark: nat,
                     ptr: int, h: Header, count: nat, n: nat, mark': nat)
    requires PayloadsMarked(headers, counts, asked, mark) && mark <= mark' && PayloadMarked(ptr, h, count, n, mark')
    ensures PayloadsMarked(headers[ptr := h], counts[ptr := count], asked[ptr := n], mark')
  {
    forall p | p in headers && p != ptr
      ensures p in asked && p in counts && PayloadMarked(p, headers[p], counts[p], asked[p], mark')
    {
    }
  }

  lemma PayloadRemoved(headers: map<int, Header>, counts: map<int, nat>, asked: map<int, nat>, mark: nat,
                       ptr: int, mark': nat)
    requires PayloadsMarked(headers, counts, asked, mark) && mark <= mark'
    ensures PayloadsMarked(headers - {ptr}, counts - {ptr}, asked - {ptr}, mark')
  {
  }

  // How far a payload can grow where it is
  function Room(h: Header): nat {
    if h.size >= h.padding + HEADER_SIZE then h.size - h.padding - HEADER_SIZE else 0
  }

  function Min(a: nat, b: nat): nat {
    if a > b then b else a
  }

  // The number that bytes spell, lowest byte first
  function LittleEndian(bytes: seq<Byte>): nat {
    if bytes == [] then 0 else bytes[0] as nat + 0x100 * LittleEndian(bytes[1..])
  }

  lemma LowestFirst(bytes: seq<Byte>)
    requires bytes != []
    ensures LittleEndian(bytes) % 0x100 == bytes[0] && LittleEndian(bytes) / 0x100 == LittleEndian(bytes[1..])
  {
  }

  // The bytes of a number, lowest first
  function LittleBytes(n: nat, k: nat): (bytes: seq<Byte>)
    ensures |bytes| == k
  {
    if k == 0 then [] else [n % 0x100] + LittleBytes(n / 0x100, k - 1)
  }

  function Pow256(k: nat): (r: nat)
    ensures r >= 1
  {
    if k == 0 then 1 else 0x100 * Pow256(k - 1)
  }

  lemma {:induction false} BytesSpell(n: nat, k: nat)
    requires n < Pow256(k)
    ensures LittleEndian(LittleBytes(n, k)) == n
  {
    if k > 0 {
      BytesSpell(n / 0x100, k - 1);
      assert LittleBytes(n, k)[1..] == LittleBytes(n / 0x100, k - 1);
    }
  }

  lemma WordSpelled(n: nat)
    requires n < TWO64
    ensures LittleEndian(LittleBytes(n, 8)) == n
  {
    assert Pow256(4) == TWO32;
    assert Pow256(8) == 0x1_0000_0000 * Pow256(4);
    BytesSpell(n, 8);
  }

  // What lies on the size word of a chunk whose payload is at off: with padding 0 the
  // first eight bytes of the payload, otherwise what the header has left of it.
  function WordSeen(h: Header, memory: seq<Byte>, off: int): nat {
    if h.padding == 0 && 0 <= off && off + 8 <= |memory| then LittleEndian(memory[off..off + 8])
    else WordUnderHeader(h)
  }

  ghost predicate Shown(headers: map<int, Header>, words: map<int, nat>, memory: seq<Byte>, base: nat) {
    && words.Keys == headers.Keys
    && forall p {:trigger words[p]} :: p in headers ==> words[p] == WordSeen(headers[p], memory, p - base)
  }

  ghost predicate BytesKept(memory: seq<Byte>, memory': seq<Byte>, src: int, dst: int, n: nat) {
    && 0 <= src <= src + n <= |memory| && 0 <= dst <= dst + n <= |memory'|
    && memory'[dst..dst + n] == memory[src..src + n]
  }

  ghost predicate PayloadKept(headers: map<int, Header>, memory: seq<Byte>,
                              headers': map<int, Header>, memory': seq<Byte>, base: nat, p: int) {
    && p in headers && p in headers' && headers'[p] == headers[p]
    && BytesKept(memory, memory', p - base, p - base, Room(headers[p]))
  }

  // Every live payload but that of ptr keeps its header and all its bytes.
  ghost predicate OthersKept(headers: map<int, Header>, memory: seq<Byte>,
                             headers': map<int, Header>, memory': seq<Byte>, base: nat, ptr: int) {
    forall p {:trigger PayloadKept(headers, memory, headers', memory', base, p)} :: p in headers && p != ptr ==>
      PayloadKept(headers, memory, headers', memory', base, p)
  }

  lemma WriteKept(memory: seq<Byte>, memory': seq<Byte>, at: int, n: nat, a: int, len: nat)
    requires OnlyWritten(memory, memory', at, n)
    requires 0 <= a <= a + len <= |memory| && (a + len <= at || at + n <= a)
    ensures BytesKept(memory, memory', a, a, len)
  {
  }

  lemma KeptWord(memory: seq<Byte>, memory': seq<Byte>, h: Header, off: int)
    requires BytesKept(memory, memory', off, off, Room(h)) && (h.padding == 0 ==> Room(h) >= 8)
    ensures WordSeen(h, memory', off) == WordSeen(h, memory, off)
  {
    if h.padding == 0 {
      assert memory'[off..off + 8] == memory'[off..off + Room(h)][..8];
      assert memory[off..off + 8] == memory[off..off + Room(h)][..8];
    }
  }

  ghost predicate RoomInside(p: int, h: Header, base: nat, size: nat) {
    base <= p && p + Room(h) <= base + size && (h.padding == 0 ==> Room(h) >= 8)
  }

  ghost predicate RoomsApart(p: int, h: Header, q: int, k: Header) {
    p + Room(h) <= q || q + Room(k) <= p
  }

  // n bytes at a reach into no byte of the payload p.
  ghost predicate Outside(a: int, n: nat, p: int, h: Header) {
    a + n <= p || p + Room(h) <= a
  }

  // Payloads lie in the region and, for distinct pointers, apart.
  ghost predicate Laid(headers: map<int, Header>, base: nat, size: nat) {
    && (forall p {:trigger RoomInside(p, headers[p], base, size)} :: p in headers ==>
          RoomInside(p, headers[p], base, size))
    && (forall p, q {:trigger RoomsApart(p, headers[p], q, headers[q])} :: p in headers && q in headers && p != q ==>
          RoomsApart(p, headers[p], q, headers[q]))
  }

  ghost predicate CopiedOut(headers: map<int, Header>, memory: seq<Byte>, headers': map<int, Header>,
                            memory': seq<Byte>,
                            base: nat, ptr: int, r: int, n: nat) {
    BytesKept(memory, memory', ptr - base, r - base, n) && OthersKept(headers, memory, headers', memory', base, ptr)
  }

  // Writing inside one payload leaves every other as it was, its size word included.
  lemma WriteKeepsOthers(headers: map<int, Header>, memory: seq<Byte>, memory': seq<Byte>,
                         base: nat, size: nat, ptr: int, off: nat, n: nat)
    requires Laid(headers, base, size) && |memory| == size && ptr in headers && off + n <= Room(headers[ptr])
    requires OnlyWritten(memory, memory', ptr - base + off, n)
    ensures OthersKept(headers, memory, headers, memory', base, ptr)
  {
    forall p | p in headers && p != ptr
      ensures PayloadKept(headers, memory, headers, memory', base, p)
    {
      assert RoomInside(p, headers[p], base, size) && RoomsApart(p, headers[p], ptr, headers[ptr]);
      WriteKept(memory, memory', ptr - base + off, n, p - base, Room(headers[p]));
    }
  }

  // Every size word is still what its payload shows: after a write to ptr, after a payload
  // ptr was added and its first bytes written, and after ptr was removed.
  lemma ShownWritten(headers: map<int, Header>, words: map<int, nat>, memory: seq<Byte>, memory': seq<Byte>,
                     base: nat, size: nat, ptr: int, off: nat, n: nat)
    requires Shown(headers, words, memory, base) && ptr in headers
    requires Laid(headers, base, size) && |memory| == size && off + n <= Room(headers[ptr])
    requires OnlyWritten(memory, memory', ptr - base + off, n)
    ensures Shown(headers, words[ptr := WordSeen(headers[ptr], memory', ptr - base)], memory', base)
    ensures OthersKept(headers, memory, headers, memory', base, ptr)
  {
    WriteKeepsOthers(headers, memory, memory', base, size, ptr, off, n);
    forall p | p in headers && p != ptr
      ensures words[p] == WordSeen(headers[p], memory', p - base)
    {
      assert PayloadKept(headers, memory, headers, memory', base, p) && RoomInside(p, headers[p], base, size);
      KeptWord(memory, memory', headers[p], p - base);
    }
  }

  lemma ShownAdded(headers: map<int, Header>, words: map<int, nat>, memory: seq<Byte>, headers': map<int, Header>,
                   memory': seq<Byte>, base: nat, size: nat, ptr: int, n: nat)
    requires Shown(headers, words, memory, base) && ptr !in headers
    requires ptr in headers' && headers' == headers[ptr := headers'[ptr]]
    requires Laid(headers', base, size) && |memory| == size && n <= Room(headers'[ptr])
    requires OnlyWritten(memory, memory', ptr - base, n)
    ensures Shown(headers', words[ptr := WordSeen(headers'[ptr], memory', ptr - base)], memory', base)
    ensures OthersKept(headers, memory, headers', memory', base, ptr)
  {
    var words0 := words[ptr := WordSeen(headers'[ptr], memory, ptr - base)];
    assert Shown(headers', words0, memory, base);
    ShownWritten(headers', words0, memory, memory', base, size, ptr, 0, n);
    var w := WordSeen(headers'[ptr], memory', ptr - base);
    assert words0[ptr := w] == words[ptr := w];
    forall p | p in headers && p != ptr
      ensures PayloadKept(headers, memory, headers', memory', base, p)
    {
      assert PayloadKept(headers', memory, headers', memory', base, p);
    }
  }

  // What malloc leaves at the beginning of a payload with padding 0 is the size word.
  function LeftOver(h: Header): seq<Byte> {
    if h.padding == 0 then LittleBytes(h.size, 8) else []
  }

  lemma LeftOverShows(h: Header, memory: seq<Byte>, memory': seq<Byte>, off: nat)
    requires off + Room(h) <= |memory| && (h.padding == 0 ==> Room(h) >= 8) && h.size < TWO64
    requires Overwritten(memory, memory', off, LeftOver(h))
    ensures WordSeen(h, memory', off) == WordUnderHeader(h)
  {
    WordSpelled(h.size);
  }

  lemma ShownRemoved(headers: map<int, Header>, words: map<int, nat>, memory: seq<Byte>, base: nat, ptr: int)
    requires Shown(headers, words, memory, base)
    ensures Shown(headers - {ptr}, words - {ptr}, memory, base)
  {
    forall p | p in headers && p != ptr
      ensures (words - {ptr})[p] == WordSeen((headers - {ptr})[p], memory, p - base)
    {
      assert words[p] == WordSeen(headers[p], memory, p - base);
    }
  }

  // The outcome of a successful reallocation of ptr to r: n bytes of the old payload
  // are there, the alignment is the same, and every other payload is untouched.
  ghost predicate Reallocated(headers: map<int, Header>, memory: seq<Byte>, headers': map<int, Header>,
                              memory': seq<Byte>,
                              base: nat, ptr: int, r: int, newCount: nat, n: nat) {
    && ptr in headers && r in headers'
    && headers' == (headers - {ptr})[r := headers'[r]]
    && headers'[r].alignment == headers[ptr].alignment
    && newCount <= Room(headers'[r])
    && BytesKept(memory, memory', ptr - base, r - base, n)
    && OthersKept(headers, memory, headers', memory', base, ptr)
  }

  // Freeing ptr after the copy leaves the copy and the other payloads.
  lemma FreedAfterCopy(headers: map<int, Header>, memory: seq<Byte>, h: Header, memory': seq<Byte>,
                       base: nat, ptr: int, r: int, newCount: nat, n: nat)
    requires ptr in headers && r !in headers && h.alignment == headers[ptr].alignment && newCount <= Room(h)
    requires CopiedOut(headers, memory, headers[r := h], memory', base, ptr, r, n)
    ensures Reallocated(headers, memory, headers[r := h] - {ptr}, memory', base, ptr, r, newCount, n)
  {
    AddThenRemove(headers, ptr, r, h);
    forall p | p in headers && p != ptr
      ensures PayloadKept(headers, memory, headers[r := h] - {ptr}, memory', base, p)
    {
      assert PayloadKept(headers, memory, headers[r := h], memory', base, p);
    }
  }

  lemma NothingMoved(headers: map<int, Header>, memory: seq<Byte>, base: nat, size: nat, ptr: int, newCount: nat)
    requires Laid(headers, base, size) && |memory| == size && ptr in headers && newCount <= Room(headers[ptr])
    ensures Reallocated(headers, memory, headers, memory, base, ptr, ptr, newCount, newCount)
  {
    assert (headers - {ptr})[ptr := headers[ptr]] == headers;
    assert RoomInside(ptr, headers[ptr], base, size);
    forall p | p in headers
      ensures PayloadKept(headers, memory, headers, memory, base, p)
    {
      assert RoomInside(p, headers[p], base, size);
    }
  }

  // What a heap is to its clients: payload bytes, headers, and the counts asked for.
  // Size words are among the bytes and headers.
  datatype View = View(memory: seq<Byte>, headers: map<int, Header>, counts: map<int, nat>)

  function SizeWord(v: View, base: nat, p: int): nat
    requires p in v.headers
  {
    WordSeen(v.headers[p], v.memory, p - base)
  }

  // The chunk is no larger than rounding and a rest too small for a node make it.
  ghost predicate Snug(h: Header, count: nat) {
    h.alignment >= 1 && NodeSize(count, h.alignment) <= h.size < NodeSize(count, h.alignment) + NODE_SIZE
  }

  // A payload more, whose bytes are not specified
  ghost predicate Gained(v: View, v': View, base: nat, ptr: int, count: nat, alignment: nat) {
    match v'
    case View(memory', headers', counts') =>
      && ptr !in v.headers && ptr in headers'
      && headers' == v.headers[ptr := headers'[ptr]] && counts' == v.counts[ptr := count]
      && PayloadFits(ptr, headers'[ptr], count) && headers'[ptr].alignment == alignment && Snug(headers'[ptr], count)
      && WordSeen(headers'[ptr], memory', ptr - base) == WordUnderHeader(headers'[ptr])
      && OthersKept(v.headers, v.memory, headers', memory', base, ptr)
  }

  // What Gained says follows from a new header and the bytes left over.
  lemma Surfaced(v: View, words: map<int, nat>, v': View, base: nat, size: nat, ptr: int, count: nat)
    requires Shown(v.headers, words, v.memory, base) && Laid(v'.headers, base, size) && |v.memory| == size
    requires ptr !in v.headers && ptr in v'.headers && v'.headers == v.headers[ptr := v'.headers[ptr]]
    requires v'.counts == v.counts[ptr := count]
    requires PayloadFits(ptr, v'.headers[ptr], count) && Snug(v'.headers[ptr], count) && v'.headers[ptr].size < TWO64
    requires Overwritten(v.memory, v'.memory, ptr - base, LeftOver(v'.headers[ptr]))
    ensures Gained(v, v', base, ptr, count, v'.headers[ptr].alignment)
    ensures Shown(v'.headers, words[ptr := WordUnderHeader(v'.headers[ptr])], v'.memory, base)
  {
    var h := v'.headers[ptr];
    assert RoomInside(ptr, h, base, size);
    LeftOverShows(h, v.memory, v'.memory, ptr - base);
    ShownAdded(v.headers, words, v.memory, v'.headers, v'.memory, base, size, ptr, |LeftOver(h)|);
  }

  // A payload less
  ghost function Lost(v: View, ptr: int): View {
    View(v.memory, v.headers - {ptr}, v.counts - {ptr})
  }

  // A payload that its client wrote data to, at offset off
  ghost predicate Wrote(v: View, v': View, base: nat, ptr: int, off: nat, data: seq<Byte>) {
    match v'
    case View(memory', headers', counts') =>
      && ptr in v.headers && headers' == v.headers && counts' == v.counts
      && Overwritten(v.memory, memory', ptr - base + off, data)
      && OthersKept(v.headers, v.memory, headers', memory', base, ptr)
  }

  // The payload ptr was copied to the new payload r.
  ghost predicate Copied(v: View, v': View, base: nat, ptr: int, r: int, newCount: nat) {
    && ptr in v.headers && r !in v.headers && r in v'.headers
    && v'.headers == v.headers[r := v'.headers[r]] && v'.counts == v.counts[r := newCount]
    && v'.headers[r].alignment == v.headers[ptr].alignment
    && newCount <= Room(v'.headers[r]) && Snug(v'.headers[r], newCount)
    && CopiedOut(v.headers, v.memory, v'.headers, v'.memory, base, ptr, r, Room(v.headers[ptr]))
  }

  lemma GainedThenFilled(v: View, mid: View, v': View, base: nat, ptr: int, r: int, newCount: nat, data: seq<Byte>)
    requires ptr in v.headers && Gained(v, mid, base, r, newCount, v.headers[ptr].alignment)
    requires |data| == Room(v.headers[ptr]) && newCount <= Room(mid.headers[r])
    requires 0 <= ptr - base && ptr - base + |data| <= |mid.memory|
    requires data == mid.memory[ptr - base..ptr - base + |data|] && Wrote(mid, v', base, r, 0, data)
    ensures Copied(v, v', base, ptr, r, newCount)
  {
    forall p | p in v.headers && p != ptr
      ensures PayloadKept(v.headers, v.memory, v'.headers, v'.memory, base, p)
    {
      assert PayloadKept(v.headers, v.memory, mid.headers, mid.memory, base, p);
      assert PayloadKept(mid.headers, mid.memory, v'.headers, v'.memory, base, p);
    }
    assert PayloadKept(v.headers, v.memory, mid.headers, mid.memory, base, ptr);
  }

  lemma CopiedThenFreed(v: View, mid: View, base: nat, ptr: int, r: int, newCount: nat)
    requires r in mid.headers && Copied(v, mid, base, ptr, r, newCount)
    ensures Moved(v, Lost(mid, ptr), base, ptr, r, newCount)
  {
    FreedAfterCopy(v.headers, v.memory, mid.headers[r], mid.memory, base, ptr, r, newCount, Room(v.headers[ptr]));
    AddThenRemove(v.counts, ptr, r, newCount);
  }

  // A payload that moved
  ghost predicate Moved(v: View, v': View, base: nat, ptr: int, r: int, newCount: nat) {
    && ptr in v.headers && r !in v.headers && r in v'.headers && Snug(v'.headers[r], newCount)
    && v'.counts == (v.counts - {ptr})[r := newCount]
    && Reallocated(v.headers, v.memory, v'.headers, v'.memory, base, ptr, r, newCount, Room(v.headers[ptr]))
  }

  // Adding the payload r changes neither the chunk of ptr nor its size word.
  lemma HarmlessThen(bs: seq<Block>, n: nat, i: nat, taken: Block, headers: map<int, Header>, words: map<int, nat>,
                     headers': map<int, Header>, words': map<int, nat>, ptr: int, r: int)
    requires ptr in headers && ptr in words && r != ptr && r in headers' && r in words'
    requires HarmlessAfter(bs, n, ChunkOf(ptr, headers[ptr]), words[ptr]) && ChosenChunk(bs, n, i, taken)
    requires headers' == headers[r := headers'[r]] && words' == words[r := words'[r]]
    ensures WordHarmless(Take(bs, i, n), ChunkOf(ptr, headers'[ptr]), words'[ptr])
  {
  }

  lemma AddThenRemove<V>(m: map<int, V>, p: int, r: int, v: V)
    requires p != r
    ensures m[r := v] - {p} == (m - {p})[r := v]
  {
  }
}
