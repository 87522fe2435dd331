// any_completion_handler_impl::allocate and deallocate: over-aligned blocks cut out of raw blocks,
// with the distance back to the raw block hidden right behind the user's bytes.
module AlignedAllocator {
  import opened Options
  import opened Arithmetic
  import opened LittleEndian

  const WORD: nat := 0x1_0000_0000_0000_0000  // 2^64, one past the largest std::size_t
  const OFFSET_BYTES: nat := 8                // sizeof(std::ptrdiff_t)

  function Padding(ptr: nat, align: nat): (pad: nat)
    requires align > 0
    ensures pad < align
  {
    (align - ptr % align) % align
  }

  // The padding leads to an aligned address, and to the first one.
  lemma PaddingReaches(ptr: nat, align: nat, q: nat)
    requires align > 0
    ensures (ptr + Padding(ptr, align)) % align == 0
    ensures ptr <= q < ptr + Padding(ptr, align) ==> q % align != 0
  {
    var r, k := ptr % align, ptr / align;
    assert ptr == align * k + r;
    if r == 0 {
      DivMod(align, 1, 0);
    } else {
      DivMod(align, 0, align - r);
      assert ptr + Padding(ptr, align) == align * (k + 1);
      DivMod(align, k + 1, 0);
      if ptr <= q < ptr + Padding(ptr, align) {
        DivMod(align, k, q - align * k);
      }
    }
  }

  // std::align with `space` bytes from ptr.
  function StdAlign(align: nat, size: nat, ptr: nat, space: nat): (r: Option<nat>)
    requires align > 0
    ensures r.Some? ==> ptr <= r.value < ptr + align && r.value + size <= ptr + space
  {
    var p := ptr + Padding(ptr, align);
    if p + size <= ptr + space then Some(p) else None
  }

  // It returns the first aligned address at or after ptr, or nothing if no aligned block fits.
  lemma StdAlignIsFirstFit(align: nat, size: nat, ptr: nat, space: nat, q: nat)
    requires align > 0
    ensures var r := StdAlign(align, size, ptr, space);
            && (r.Some? ==> r.value % align == 0)
            && (ptr <= q && q % align == 0 && q + size <= ptr + space ==> r.Some? && r.value <= q)
  {
    PaddingReaches(ptr, align, q);
  }

  // The two sizes computed by allocate, in 64-bit arithmetic.
  function Space(size: nat, align: nat): nat
    requires align > 0
  {
    (size + align - 1) % WORD
  }

  function Requested(size: nat, align: nat): nat
    requires align > 0
  {
    (Space(size, align) + OFFSET_BYTES) % WORD
  }

  lemma NoWrapping(size: nat, align: nat)
    requires align > 0 && size + align - 1 + OFFSET_BYTES < WORD
    ensures Space(size, align) == size + align - 1
    ensures Requested(size, align) == size + align - 1 + OFFSET_BYTES
  {
  }

  // Whatever address the base allocator returns: std::align fails exactly when size + align - 1
  // does not fit a size_t, so its bad_alloc branch is dead for every size that does; and the user
  // block with its trailer lies inside the raw block exactly when the whole request fits one.
  lemma AllocationFits(size: nat, align: nat, base: nat)
    requires 0 < align < WORD && size < WORD
    ensures var p := StdAlign(align, size, base, Space(size, align));
            && (p.Some? <==> size + align - 1 < WORD)
            && (p.Some? && p.value + size + OFFSET_BYTES <= base + Requested(size, align)
                <==> size + align - 1 + OFFSET_BYTES < WORD)
  {
    if size + align - 1 >= WORD {
      assert Space(size, align) == size + align - 1 - WORD < size;
    } else {
      assert Space(size, align) == size + align - 1;
      if size + align - 1 + OFFSET_BYTES >= WORD {
        assert Requested(size, align) == size + align - 1 + OFFSET_BYTES - WORD;
      }
    }
  }

  // Eight bytes short of 2^64 with alignment 1: the sum wraps, nothing is requested from the base
  // allocator, and std::align nevertheless succeeds.
  lemma WrappedRequestOverruns(base: nat)
    ensures var size := WORD - OFFSET_BYTES;
            && Requested(size, 1) == 0
            && StdAlign(1, size, base, Space(size, 1)) == Some(base)
            && base + size + OFFSET_BYTES > base + Requested(size, 1)
  {
  }

  // A user block: [p, p + size) inside the raw block at `base`.
  datatype Block = Block(size: nat, align: nat, base: nat)

  predicate Disjoint(a: nat, n: nat, b: nat, m: nat) {
    a + n <= b || b + m <= a
  }

  // The address space (address 0 is null), the raw blocks of the base allocator with their byte
  // counts, and the live user blocks.
  datatype State = State(mem: seq<Byte>, raw: map<nat, nat>, user: map<nat, Block>)

  // Raw blocks are non-null, in range and disjoint.
  ghost predicate RawOk(s: State) {
    && (forall b :: b in s.raw ==> 0 < b && b + s.raw[b] <= |s.mem|)
    && (forall b, c :: b in s.raw && c in s.raw && b != c ==> Disjoint(b, s.raw[b], c, s.raw[c]))
  }

  // Block b at p lies, with its trailer, in its raw block.
  predicate Placed(s: State, p: nat, b: Block) {
    && 0 < b.align && b.size + b.align - 1 + OFFSET_BYTES < WORD
    && b.base in s.raw && s.raw[b.base] == b.size + b.align - 1 + OFFSET_BYTES
    && b.base <= p < b.base + b.align
    && b.base + s.raw[b.base] <= |s.mem|
  }

  function Trailer(s: State, p: nat, size: nat): (t: seq<Byte>)
    requires p + size + OFFSET_BYTES <= |s.mem|
    ensures |t| == OFFSET_BYTES
  {
    s.mem[p + size..p + size + OFFSET_BYTES]
  }

  // A placed block whose trailer holds the distance back to the raw block.
  predicate BlockOk(s: State, p: nat, b: Block) {
    Placed(s, p, b) && Decode(Trailer(s, p, b.size)) == p - b.base
  }

  ghost predicate BlocksOk(s: State) {
    && (forall p :: p in s.user ==> BlockOk(s, p, s.user[p]))
    && (forall p, q :: p in s.user && q in s.user && s.user[p].base == s.user[q].base ==> p == q)
  }

  ghost predicate Consistent(s: State) {
    RawOk(s) && BlocksOk(s)
  }

  predicate Free(s: State, base: nat, count: nat) {
    && base > 0 && base + count <= |s.mem| && base !in s.raw
    && forall c :: c in s.raw ==> Disjoint(base, count, c, s.raw[c])
  }

  // mem' is mem with `data` at address `at`.
  ghost predicate Written(mem: seq<Byte>, mem': seq<Byte>, at: nat, data: seq<Byte>) {
    && |mem'| == |mem| && at + |data| <= |mem| && mem'[at..at + |data|] == data
    && forall i :: 0 <= i < at || at + |data| <= i < |mem| ==> mem'[i] == mem[i]
  }

  // Live user blocks, trailers included, never overlap.
  lemma UserBlocksDisjoint(s: State, p: nat, q: nat)
    requires Consistent(s) && p in s.user && q in s.user && p != q
    ensures Disjoint(p, s.user[p].size + OFFSET_BYTES, q, s.user[q].size + OFFSET_BYTES)
  {
  }

  // A block depends on its raw block and the memory only.
  lemma SameBlock(s: State, s': State, p: nat, b: Block)
    requires BlockOk(s, p, b) && s'.mem == s.mem && b.base in s'.raw && s'.raw[b.base] == s.raw[b.base]
    ensures BlockOk(s', p, b)
  {
  }

  lemma GrantKeepsConsistent(s: State, base: nat, count: nat)
    requires Consistent(s) && Free(s, base, count)
    ensures Consistent(s.(raw := s.raw[base := count]))
    ensures forall p :: p in s.user ==> s.user[p].base != base
  {
    hide Decode;
    var s' := s.(raw := s.raw[base := count]);
    forall p | p in s.user
      ensures BlockOk(s', p, s.user[p]) && s.user[p].base != base
    {
      assert BlockOk(s, p, s.user[p]);
      SameBlock(s, s', p, s.user[p]);
    }
  }

  // Writing inside a raw block, short of the trailer of whatever lives there, disturbs no block.
  lemma BlockSurvivesWrite(s: State, mem': seq<Byte>, at: nat, data: seq<Byte>, base: nat, p: nat, b: Block)
    requires RawOk(s) && BlockOk(s, p, b) && Written(s.mem, mem', at, data)
    requires base in s.raw && base <= at && at + |data| <= base + s.raw[base]
    requires b.base == base ==> at + |data| <= p + b.size
    ensures BlockOk(s.(mem := mem'), p, b)
  {
    assert b.base != base ==> Disjoint(base, s.raw[base], b.base, s.raw[b.base]);
    assert Trailer(s.(mem := mem'), p, b.size) == Trailer(s, p, b.size);
  }

  lemma PlaceIsNew(s: State, p: nat, b: Block)
    requires Consistent(s) && Placed(s, p, b)
    requires forall q :: q in s.user ==> s.user[q].base != b.base
    ensures p !in s.user
  {
  }

  // Any write inside one raw block that stays clear of the trailer there keeps every block intact.
  lemma WriteKeepsConsistent(s: State, mem': seq<Byte>, at: nat, data: seq<Byte>, base: nat)
    requires Consistent(s) && Written(s.mem, mem', at, data)
    requires base in s.raw && base <= at && at + |data| <= base + s.raw[base]
    requires forall q :: q in s.user && s.user[q].base == base ==> at + |data| <= q + s.user[q].size
    ensures Consistent(s.(mem := mem'))
  {
    forall q | q in s.user
      ensures BlockOk(s.(mem := mem'), q, s.user[q])
    {
      BlockSurvivesWrite(s, mem', at, data, base, q, s.user[q]);
    }
  }

  // The owner of a block may write any of its bytes.
  lemma UserWriteKeepsConsistent(s: State, p: nat, at: nat, data: seq<Byte>, mem': seq<Byte>)
    requires Consistent(s) && p in s.user && at + |data| <= s.user[p].size
    requires Written(s.mem, mem', p + at, data)
    ensures Consistent(s.(mem := mem'))
  {
    assert BlockOk(s, p, s.user[p]);
    WriteKeepsConsistent(s, mem', p + at, data, s.user[p].base);
  }

  lemma RegisterKeepsConsistent(s: State, p: nat, b: Block)
    requires Consistent(s) && BlockOk(s, p, b) && p !in s.user
    requires forall q :: q in s.user ==> s.user[q].base != b.base
    ensures Consistent(s.(user := s.user[p := b]))
  {
    hide Decode;
    var s' := s.(user := s.user[p := b]);
    forall q | q in s'.user
      ensures BlockOk(s', q, s'.user[q])
    {
      var c := s'.user[q];
      SameBlock(s, s', q, c);
    }
  }

  // allocate: a raw block nobody uses yet becomes a user block with its trailer.
  lemma PlaceKeepsConsistent(s: State, p: nat, b: Block, trailer: seq<Byte>, mem': seq<Byte>)
    requires Consistent(s) && Placed(s, p, b)
    requires forall q :: q in s.user ==> s.user[q].base != b.base
    requires |trailer| == OFFSET_BYTES && Decode(trailer) == p - b.base
    requires Written(s.mem, mem', p + b.size, trailer)
    ensures p !in s.user
    ensures Consistent(State(mem', s.raw, s.user[p := b]))
  {
    PlaceIsNew(s, p, b);
    var written := State(mem', s.raw, s.user);
    assert Consistent(written) by {
      WriteKeepsConsistent(s, mem', p + b.size, trailer, b.base);
      assert written == s.(mem := mem');
    }
    assert BlockOk(written, p, b) by {
      assert Placed(written, p, b);
      assert Trailer(written, p, b.size) == trailer;
    }
    RegisterKeepsConsistent(written, p, b);
  }

  // The state after the block at p and its raw block are gone.
  function Released(s: State, p: nat): State
    requires p in s.user
  {
    s.(raw := s.raw - {s.user[p].base}, user := s.user - {p})
  }

  lemma ReleaseKeepsBlocks(s: State, p: nat)
    requires BlocksOk(s) && p in s.user
    ensures BlocksOk(Released(s, p))
  {
    hide Decode;
    var s' := Released(s, p);
    forall q | q in s'.user
      ensures BlockOk(s', q, s'.user[q])
    {
      assert BlockOk(s, q, s.user[q]) && s.user[q].base != s.user[p].base;
      SameBlock(s, s', q, s.user[q]);
    }
  }

  lemma ReleaseKeepsConsistent(s: State, p: nat)
    requires Consistent(s) && p in s.user
    ensures Consistent(Released(s, p))
  {
    hide BlocksOk;
    ReleaseKeepsBlocks(s, p);
  }

  // deallocate: the trailer leads back to the raw block, and the byte count recomputed from the
  // size and alignment is the one originally requested.
  lemma TrailerLeadsHome(s: State, p: nat)
    requires Consistent(s) && p in s.user
    ensures p + s.user[p].size + OFFSET_BYTES <= |s.mem|
    ensures p - Decode(Trailer(s, p, s.user[p].size)) == s.user[p].base
    ensures s.user[p].base in s.raw
    ensures s.raw[s.user[p].base] == Requested(s.user[p].size, s.user[p].align)
  {
    assert BlockOk(s, p, s.user[p]);
    NoWrapping(s.user[p].size, s.user[p].align);
  }

  // ---- Whole runs. ----

  datatype Call =
    | Allocate(size: nat, align: nat, base: nat, p: nat)  // base granted by the base allocator, p returned
    | Refused(size: nat, align: nat, leaked: Option<nat>) // bad_alloc, after a grant or without
    | Write(p: nat, at: nat, data: seq<Byte>)             // by the owner of p, inside its bytes
    | Deallocate(p: nat)

  // What allocate and deallocate compute; the base allocator and the owner's writes are arbitrary.
  ghost predicate CallStep(s: State, c: Call, s': State) {
    match c
    case Allocate(size, align, base, p) =>
      && align > 0 && size + align - 1 + OFFSET_BYTES < WORD
      && Free(s, base, Requested(size, align))
      && StdAlign(align, size, base, Space(size, align)) == Some(p)
      && Written(s.mem, s'.mem, p + size, Encode(p - base, OFFSET_BYTES))
      && s'.raw == s.raw[base := Requested(size, align)]
      && s'.user == s.user[p := Block(size, align, base)]
    case Refused(size, align, base) =>
      && align > 0
      && if base.None? then s' == s
         else
           && Free(s, base.value, Requested(size, align))
           && StdAlign(align, size, base.value, Space(size, align)).None?
           && s' == s.(raw := s.raw[base.value := Requested(size, align)])
    case Write(p, at, data) =>
      && p in s.user && at + |data| <= s.user[p].size
      && Written(s.mem, s'.mem, p + at, data) && s'.raw == s.raw && s'.user == s.user
    case Deallocate(p) =>
      && p in s.user && p + s.user[p].size + OFFSET_BYTES <= |s.mem|
      && s'.mem == s.mem && s'.user == s.user - {p}
      && s'.raw == s.raw - {p - Decode(Trailer(s, p, s.user[p].size))}
  }

  ghost predicate CallRun(ss: seq<State>, cs: seq<Call>) {
    |ss| == |cs| + 1 && forall i :: 0 <= i < |cs| ==> CallStep(ss[i], cs[i], ss[i + 1])
  }

  lemma StepKeepsConsistent(s: State, c: Call, s': State)
    requires Consistent(s) && CallStep(s, c, s')
    ensures Consistent(s')
    ensures c.Allocate? ==> c.p !in s.user
  {
    hide Consistent, Written, Decode, Encode, StdAlign, Free, Trailer;
    match c {
      case Allocate(size, align, base, p) =>
        var granted := s.(raw := s.raw[base := Requested(size, align)]);
        GrantKeepsConsistent(s, base, Requested(size, align));
        NoWrapping(size, align);
        GrantedFits(s, base, Requested(size, align));
        StdAlignBounds(size, align, base, p);
        OffsetReadsBack(p - base);
        PlaceKeepsConsistent(granted, p, Block(size, align, base), Encode(p - base, OFFSET_BYTES), s'.mem);
        assert s' == State(s'.mem, granted.raw, granted.user[p := Block(size, align, base)]);
      case Refused(size, align, base) =>
        if base.Some? {
          GrantKeepsConsistent(s, base.value, Requested(size, align));
        }
      case Write(p, at, data) =>
        UserWriteKeepsConsistent(s, p, at, data, s'.mem);
        assert s' == s.(mem := s'.mem);
      case Deallocate(p) =>
        TrailerLeadsHome(s, p);
        ReleaseKeepsConsistent(s, p);
        assert s' == Released(s, p);
    }
  }

  lemma GrantedFits(s: State, base: nat, count: nat)
    requires Free(s, base, count)
    ensures base + count <= |s.mem|
  {
  }

  lemma StdAlignBounds(size: nat, align: nat, base: nat, p: nat)
    requires align > 0 && StdAlign(align, size, base, Space(size, align)) == Some(p)
    ensures base <= p < base + align
  {
  }

  lemma OffsetReadsBack(off: nat)
    requires off < WORD
    ensures Decode(Encode(off, OFFSET_BYTES)) == off
  {
    Widths();
    DecodeEncode(off, OFFSET_BYTES);
  }

  lemma AllocateIsAligned(s: State, c: Call, s': State)
    requires CallStep(s, c, s') && c.Allocate?
    ensures c.align > 0 && c.p % c.align == 0
  {
    StdAlignIsFirstFit(c.align, c.size, c.base, Space(c.size, c.align), 0);
  }

  lemma {:induction false} RunKeepsConsistent(ss: seq<State>, cs: seq<Call>, k: nat)
    requires CallRun(ss, cs) && Consistent(ss[0]) && k <= |cs|
    ensures Consistent(ss[k])
    decreases k
  {
    hide Consistent, CallStep;
    if k > 0 {
      RunKeepsConsistent(ss, cs, k - 1);
      StepKeepsConsistent(ss[k - 1], cs[k - 1], ss[k]);
    }
  }

  // Until it is deallocated, a block keeps its size, alignment and raw block.
  lemma {:induction false} BlockPersists(ss: seq<State>, cs: seq<Call>, i: nat, j: nat)
    requires CallRun(ss, cs) && Consistent(ss[0]) && i < j <= |cs| && cs[i].Allocate?
    requires forall k :: i < k < j ==> cs[k] != Deallocate(cs[i].p)
    ensures cs[i].p in ss[j].user && ss[j].user[cs[i].p] == Block(cs[i].size, cs[i].align, cs[i].base)
    decreases j
  {
    hide Consistent, Written, StdAlign, Free, Trailer, Decode, Encode;
    assert CallStep(ss[j - 1], cs[j - 1], ss[j]);
    if i < j - 1 {
      BlockPersists(ss, cs, i, j - 1);
      RunKeepsConsistent(ss, cs, j - 1);
      StepKeepsConsistent(ss[j - 1], cs[j - 1], ss[j]);
    }
  }

  // In every interleaving of allocations, owners' writes and deallocations, deallocating what the
  // i-th call allocated hands the base allocator exactly the address and byte count it granted then.
  lemma DeallocateReturnsWhatWasGranted(ss: seq<State>, cs: seq<Call>, i: nat, j: nat)
    requires CallRun(ss, cs) && Consistent(ss[0]) && i < j < |cs| && cs[i].Allocate?
    requires cs[j] == Deallocate(cs[i].p) && forall k :: i < k < j ==> cs[k] != Deallocate(cs[i].p)
    ensures var s, p := ss[j], cs[i].p;
            && p in s.user && s.user[p] == Block(cs[i].size, cs[i].align, cs[i].base)
            && p + cs[i].size + OFFSET_BYTES <= |s.mem|
            && p - Decode(Trailer(s, p, cs[i].size)) == cs[i].base
            && cs[i].align > 0 && cs[i].base in s.raw && s.raw[cs[i].base] == Requested(cs[i].size, cs[i].align)
  {
    hide Consistent, CallStep, Trailer, Decode;
    BlockPersists(ss, cs, i, j);
    RunKeepsConsistent(ss, cs, j);
    AllocateIsAligned(ss[i], cs[i], ss[i + 1]);
    TrailerLeadsHome(ss[j], cs[i].p);
  }

  // Following the trailer is a deallocation step.
  lemma DeallocateStep(s: State, p: nat)
    requires Consistent(s) && p in s.user
    ensures var b := s.user[p];
            && p + b.size + OFFSET_BYTES <= |s.mem| && b.align > 0 && b.size + b.align - 1 + OFFSET_BYTES < WORD
            && p - Decode(Trailer(s, p, b.size)) == b.base
            && b.base in s.raw && s.raw[b.base] == b.size + b.align - 1 + OFFSET_BYTES
    ensures Consistent(Released(s, p)) && CallStep(s, Call.Deallocate(p), Released(s, p))
  {
    TrailerLeadsHome(s, p);
    ReleaseKeepsConsistent(s, p);
    assert BlockOk(s, p, s.user[p]);
  }

  class Allocator {
    const bytes: array<Byte>
    var raw: map<nat, nat>
    ghost var user: map<nat, Block>

    ghost function View(): State
      reads this, bytes
    {
      State(bytes[..], raw, user)
    }

    constructor (size: nat)
      ensures Consistent(View()) && raw == map[] && user == map[] && fresh(bytes)
    {
      bytes := new Byte[size];
      raw, user := map[], map[];
    }

    // The base allocator: any free stretch of memory, or failure.
    method BaseAllocate(count: nat) returns (base: Option<nat>)
      requires Consistent(View())
      modifies this`raw
      ensures Consistent(View())
      ensures base.None? ==> raw == old(raw)
      ensures base.Some? ==> Free(old(View()), base.value, count) && raw == old(raw)[base.value := count]
      ensures base.Some? ==> forall p :: p in user ==> user[p].base != base.value
    {
      var b :| b >= 0;
      base := None;
      if b > 0 && b + count <= bytes.Length && b !in raw && forall c :: c in raw ==> Disjoint(b, count, c, raw[c]) {
        ghost var s := View();
        GrantKeepsConsistent(s, b, count);
        raw := raw[b := count];
        assert View() == s.(raw := s.raw[b := count]);
        base := Some(b);
      }
    }

    // The base allocator takes back only what it handed out; the user block in it is gone.
    method BaseDeallocate(base: nat, count: nat, ghost p: nat)
      requires base in raw && raw[base] == count
      requires p in user && user[p].base == base
      modifies this`raw, this`user
      ensures View() == Released(old(View()), p)
    {
      raw := raw - {base};
      user := user - {p};
    }

    method Memcpy(to: nat, data: seq<Byte>)
      requires to + |data| <= bytes.Length
      modifies bytes
      ensures Written(old(bytes[..]), bytes[..], to, data)
    {
      forall i | 0 <= i < |data| {
        bytes[to + i] := data[i];
      }
    }

    // The memcpy of the offset behind the block.
    method PlaceTrailer(p: nat, ghost b: Block, at: nat, off: nat)
      requires Consistent(View()) && Placed(View(), p, b) && at == p + b.size && off == p - b.base
      requires forall q :: q in user ==> user[q].base != b.base
      modifies this`user, bytes
      ensures Consistent(View()) && p !in old(user) && user == old(user)[p := b]
      ensures Written(old(bytes[..]), bytes[..], at, Encode(off, OFFSET_BYTES))
    {
      ghost var s := View();
      var trailer := Encode(off, OFFSET_BYTES);
      OffsetReadsBack(off);
      Memcpy(at, trailer);
      PlaceKeepsConsistent(s, p, b, trailer, bytes[..]);
      user := user[p := b];
      assert View() == State(bytes[..], s.raw, s.user[p := b]);
    }

    // None is std::bad_alloc. The caller's size must fit a size_t together with the alignment and
    // the trailer unless the first sum already overflows, which std::align reports.
    method Allocate(size: nat, align: nat) returns (r: Option<nat>, ghost from: nat)
      requires Consistent(View())
      requires 0 < align < WORD && size < WORD
      requires size + align - 1 + OFFSET_BYTES < WORD || size + align - 1 >= WORD
      modifies this`raw, this`user, bytes
      ensures Consistent(View())
      ensures r.None? ==> user == old(user) && bytes[..] == old(bytes[..])
      ensures r.None? && size + align - 1 < WORD ==> raw == old(raw)
      ensures r.Some? ==>
                && size + align - 1 < WORD && r.value !in old(user) && r.value % align == 0
                && from !in old(raw) && raw == old(raw)[from := size + align - 1 + OFFSET_BYTES]
                && user == old(user)[r.value := Block(size, align, from)]
      ensures r.Some? ==> CallStep(old(View()), Call.Allocate(size, align, from, r.value), View())
      ensures r.None? ==> exists leaked :: CallStep(old(View()), Refused(size, align, leaked), View())
    {
      hide Padding, Written, Encode, Decode, RawOk, BlocksOk;
      var space := Space(size, align);
      var base := BaseAllocate(Requested(size, align));
      if base.None? {
        assert CallStep(old(View()), Refused(size, align, None), View());
        return None, 0;
      }
      from := base.value;
      r := StdAlign(align, size, base.value, space);
      assert r.Some? <==> size + align - 1 < WORD by {
        AllocationFits(size, align, base.value);
      }
      if r.Some? {
        StdAlignIsFirstFit(align, size, base.value, space, 0);
        NoWrapping(size, align);
        assert Placed(View(), r.value, Block(size, align, from));
        PlaceTrailer(r.value, Block(size, align, from), r.value + size, r.value - base.value);
      } else {
        assert CallStep(old(View()), Refused(size, align, base), View());
      }
    }

    method UserWrite(p: nat, at: nat, data: seq<Byte>)
      requires Consistent(View()) && p in user && at + |data| <= user[p].size
      requires p + at + |data| <= bytes.Length
      modifies bytes
      ensures Consistent(View()) && CallStep(old(View()), Write(p, at, data), View())
    {
      hide Consistent, Written;
      ghost var s := View();
      Memcpy(p + at, data);
      ghost var s' := View();
      UserWriteKeepsConsistent(s, p, at, data, s'.mem);
      assert s' == s.(mem := s'.mem);
    }

    // A null pointer (0) is ignored; otherwise size and align are those of the allocation.
    method Deallocate(p: nat, size: nat, align: nat)
      requires Consistent(View())
      requires p != 0 ==> p in user && user[p].size == size && user[p].align == align
      modifies this`raw, this`user
      ensures Consistent(View())
      ensures p == 0 ==> raw == old(raw) && user == old(user)
      ensures p != 0 ==> View() == Released(old(View()), p)
      ensures p != 0 ==> CallStep(old(View()), Call.Deallocate(p), View())
    {
      hide Consistent, Decode, Trailer, CallStep, Released;
      if p != 0 {
        DeallocateStep(View(), p);
        var base := p - ReadTrailer(p, size);
        BaseDeallocate(base, size + align - 1 + OFFSET_BYTES, p);
      }
    }

    // The offset behind a block of the given size at p.
    function ReadTrailer(p: nat, size: nat): (off: nat)
      requires p + size + OFFSET_BYTES <= bytes.Length
      reads this, bytes
      ensures off == Decode(Trailer(View(), p, size))
    {
      Decode(bytes[p + size..p + size + OFFSET_BYTES])
    }
  }
}
