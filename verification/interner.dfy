/**
  The string interner `StringInternal`: a dedup map from content to identifier,
  an active arena that new strings are appended to, the retired arenas, and a
  dense table with one slice per distinct string.

  Where the Rust code stores a `&str` whose lifetime was extended with an
  unchecked transmute, this model stores a `Handle` naming the arena, the
  arena's generation at borrow time, and the byte range. The memory-safety
  argument of the original becomes the invariant `HandlesLive`: every handle in
  the table still names the current generation of its arena, so resolving it
  reads exactly the bytes that were written for it.
 */
module StringInterning {
  import opened Arenas
  import PowersOfTwo

  /** Initial arena capacity chosen by `StringInternal::new`. */
  const DefaultCapacity: nat := 100

  /** An issued identifier: the position of its string in the table. */
  datatype StringId = StringId(index: nat)

  /** A slice `arenaIndex[start..end]`, borrowed while the arena was at `generation`.
      Arena indices below the number of retired arenas name a retired arena; the
      index equal to that number names the active arena. */
  datatype Handle = Handle(arena: nat, generation: nat, start: nat, end: nat)

  /** The fields of the Rust struct: `strings` is the dedup map, `buffer` the active
      arena, `buffers` the retired arenas and `interned` the identifier table. */
  datatype StringInternal = StringInternal(
    strings: map<Text, StringId>,
    buffer: Arena,
    buffers: seq<Arena>,
    interned: seq<Handle>)

  /** How `get` fails: the explicit assertion, or the bounds check of the index. */
  datatype Fault = AssertionFailed | IndexOutOfBounds

  /** What `get` does: returns a text, or panics. */
  datatype Lookup = Found(text: Text) | Panic(fault: Fault)

  /** The result of the private `intern`: the new state, the recorded slice and its id. */
  datatype Interned = Interned(next: StringInternal, slice: Handle, id: StringId)

  /** The arena at index `k`: a retired one, or the active one at the end. */
  function ArenaAt(st: StringInternal, k: nat): Arena
    requires k <= |st.buffers|
  {
    if k < |st.buffers| then st.buffers[k] else st.buffer
  }

  /** A handle is live when its arena exists, has not been moved since the borrow,
      and still holds the borrowed range. */
  predicate Live(st: StringInternal, h: Handle)
  {
    && h.arena <= |st.buffers|
    && ArenaAt(st, h.arena).generation == h.generation
    && h.start <= h.end <= |ArenaAt(st, h.arena).bytes|
  }

  /** The bytes a live handle refers to. */
  function Resolve(st: StringInternal, h: Handle): Text
    requires Live(st, h)
  {
    ArenaAt(st, h.arena).bytes[h.start..h.end]
  }

  /** Every slice in the table can still be read. */
  ghost predicate HandlesLive(st: StringInternal)
  {
    forall i :: 0 <= i < |st.interned| ==> Live(st, st.interned[i])
  }

  /** No arena holds more bytes than its allocation. */
  ghost predicate ArenasWellFormed(st: StringInternal)
  {
    && WellFormed(st.buffer)
    && forall k :: 0 <= k < |st.buffers| ==> WellFormed(st.buffers[k])
  }

  /** The text behind table entry `i`. */
  function TextAt(st: StringInternal, i: nat): Text
    requires HandlesLive(st) && i < |st.interned|
  {
    Resolve(st, st.interned[i])
  }

  /** The representation invariant: live slices, well-formed arenas, and a dedup map
      that is the exact inverse of the table (so the table has no duplicates). */
  ghost predicate Valid(st: StringInternal)
  {
    && ArenasWellFormed(st)
    && HandlesLive(st)
    && |st.strings| == |st.interned|
    && (forall k :: k in st.strings ==>
          st.strings[k].index < |st.interned| && TextAt(st, st.strings[k].index) == k)
    && (forall i :: 0 <= i < |st.interned| ==>
          TextAt(st, i) in st.strings && st.strings[TextAt(st, i)].index == i)
  }

  /** Nothing issued before changes: retired arenas are kept as they are, the arena
      that was active keeps its allocation and its bytes as a prefix, the table only
      grows at the end, and every map entry stays. */
  ghost predicate Extends(st: StringInternal, st': StringInternal)
  {
    && st.buffers <= st'.buffers
    && ArenaAt(st', |st.buffers|).generation == st.buffer.generation
    && ArenaAt(st', |st.buffers|).capacity == st.buffer.capacity
    && st.buffer.bytes <= ArenaAt(st', |st.buffers|).bytes
    && st.interned <= st'.interned
    && forall k :: k in st.strings ==> k in st'.strings && st'.strings[k] == st.strings[k]
  }

  /** `StringInternal::with_capacity`: an empty interner whose first arena has the
      requested capacity. */
  function WithCapacity(capacity: nat): (r: StringInternal)
    ensures Valid(r)
    ensures r.strings == map[] && r.interned == [] && r.buffers == []
    ensures r.buffer.bytes == [] && r.buffer.capacity == capacity
  {
    StringInternal(map[], Arenas.Allocate(capacity), [], [])
  }

  /** `StringInternal::new`: an empty interner with a 100-byte first arena. */
  function New(): (r: StringInternal)
    ensures Valid(r)
    ensures r.strings == map[] && r.interned == [] && r.buffers == []
    ensures r.buffer.bytes == [] && r.buffer.capacity == 100
  {
    WithCapacity(DefaultCapacity)
  }

  /** `StringInternal::with_capacity_for_internals`: the expected number of strings
      only pre-sizes the table, so the result is the same empty interner. */
  function WithCapacityForInternals(capacity: nat, capacityInternalStrings: nat): (r: StringInternal)
    ensures Valid(r)
    ensures r == WithCapacity(capacity)
    ensures r.interned == [] && r.buffer.capacity == capacity
  {
    StringInternal(map[], Arenas.Allocate(capacity), [], [])
  }

  /** The growth step of `intern`: when `len` more bytes would reach the capacity of
      the active arena, that arena is retired untouched and an empty one of capacity
      `len + next_power_of_two(old capacity)` becomes active. Afterwards `len` bytes
      fit strictly below the capacity of the active arena. */
  function Reserve(st: StringInternal, len: nat): (r: StringInternal)
    ensures r.strings == st.strings && r.interned == st.interned
    ensures |r.buffer.bytes| + len < r.buffer.capacity
    ensures len + |st.buffer.bytes| >= st.buffer.capacity ==>
              && r.buffers == st.buffers + [st.buffer]
              && r.buffer.bytes == []
              && r.buffer.capacity == len + PowersOfTwo.NextPowerOfTwo(st.buffer.capacity)
    ensures len + |st.buffer.bytes| < st.buffer.capacity ==> r == st
    ensures Extends(st, r)
    ensures HandlesLive(st) ==> HandlesLive(r)
    ensures ArenasWellFormed(st) ==> ArenasWellFormed(r)
  {
    if len + |st.buffer.bytes| >= st.buffer.capacity then
      var newCapacity := PowersOfTwo.NextPowerOfTwo(st.buffer.capacity);
      var r := st.(buffer := Arenas.Allocate(len + newCapacity), buffers := st.buffers + [st.buffer]);
      assert forall k :: 0 <= k <= |st.buffers| ==> ArenaAt(r, k) == ArenaAt(st, k);
      r
    else
      st
  }

  /** The private `intern`: make room, append the bytes to the active arena,
      record the slice and mint the next id. */
  function Intern(st: StringInternal, s: Text): (r: Interned)
    requires HandlesLive(st) && ArenasWellFormed(st)
    ensures r.next.strings == st.strings
    ensures r.next.interned == st.interned + [r.slice]
    ensures r.id.index == |st.interned|
    ensures Live(r.next, r.slice) && Resolve(r.next, r.slice) == s
    ensures r.slice.arena == |r.next.buffers| && r.slice.end == |r.next.buffer.bytes|
    ensures r.slice.end - r.slice.start == |s|
    ensures |s| + |st.buffer.bytes| < st.buffer.capacity ==>
              && r.next.buffers == st.buffers
              && r.next.buffer.bytes == st.buffer.bytes + s
              && r.next.buffer.capacity == st.buffer.capacity
              && r.slice.start == |st.buffer.bytes|
    ensures |s| + |st.buffer.bytes| >= st.buffer.capacity ==>
              && r.next.buffers == st.buffers + [st.buffer]
              && r.next.buffer.bytes == s
              && r.next.buffer.capacity == |s| + PowersOfTwo.NextPowerOfTwo(st.buffer.capacity)
              && r.slice.start == 0
    ensures |r.next.buffer.bytes| < r.next.buffer.capacity
    ensures Extends(st, r.next)
    ensures HandlesLive(r.next) && ArenasWellFormed(r.next)
  {
    var grown := Reserve(st, |s|);
    var oldLen := |grown.buffer.bytes|;
    var newLen := oldLen + |s|;
    var pushed := PushStr(grown.buffer, s);
    var slice := Handle(|grown.buffers|, pushed.generation, oldLen, newLen);
    var next := grown.(buffer := pushed, interned := grown.interned + [slice]);
    PushKeepsHandles(grown, pushed, next);
    Interned(next, slice, StringId(|next.interned| - 1))
  }

  /** Replacing the active arena by an in-place append of it keeps every older slice
      live and reading the same bytes. */
  lemma PushKeepsHandles(st: StringInternal, pushed: Arena, next: StringInternal)
    requires pushed.generation == st.buffer.generation && pushed.capacity == st.buffer.capacity
    requires st.buffer.bytes <= pushed.bytes
    requires next.buffers == st.buffers && next.buffer == pushed
    requires next.strings == st.strings && st.interned <= next.interned
    ensures Extends(st, next)
    ensures forall h :: Live(st, h) ==> Live(next, h) && Resolve(next, h) == Resolve(st, h)
  {
    forall h | Live(st, h)
      ensures Live(next, h) && Resolve(next, h) == Resolve(st, h)
    {
      if h.arena == |st.buffers| {
        assert ArenaAt(next, h.arena).bytes[h.start..h.end] == st.buffer.bytes[h.start..h.end];
      }
    }
  }

  /** `StringInternal::get`, as the identifier contract intends: an id inside the
      table resolves to its text, which the dedup map sends back to the same id;
      any other id panics. */
  function Get(st: StringInternal, id: StringId): (r: Lookup)
    requires Valid(st)
    ensures r.Found? <==> id.index < |st.interned|
    ensures r.Found? ==> r.text in st.strings && st.strings[r.text] == id
    ensures r.Panic? ==> r.fault == AssertionFailed
  {
    if id.index < |st.interned| then Found(TextAt(st, id.index)) else Panic(AssertionFailed)
  }

  /** `StringInternal::get` as written: the assertion admits `id == len`, which then
      panics in the bounds check of the index instead. */
  function GetAsWritten(st: StringInternal, id: StringId): (r: Lookup)
    requires Valid(st)
    ensures r.Found? <==> id.index < |st.interned|
    ensures r.Panic? ==> (r.fault == IndexOutOfBounds <==> id.index == |st.interned|)
  {
    if !(id.index <= |st.interned|) then Panic(AssertionFailed)
    else if id.index < |st.interned| then Found(TextAt(st, id.index))
    else Panic(IndexOutOfBounds)
  }

  /** The assertion of `get` as written admits the one-past-the-end id: that call
      still panics, but in the bounds check of the index, while the intended
      assertion is what rejects it. */
  lemma GetAsWrittenAdmitsLength(st: StringInternal)
    requires Valid(st)
    ensures GetAsWritten(st, StringId(|st.interned|)) == Panic(IndexOutOfBounds)
    ensures Get(st, StringId(|st.interned|)) == Panic(AssertionFailed)
  {
  }

  /** Apart from which check raises the panic, `get` as written and as intended agree. */
  lemma GetAgreesWithAsWritten(st: StringInternal, id: StringId)
    requires Valid(st)
    ensures GetAsWritten(st, id).Found? <==> Get(st, id).Found?
    ensures Get(st, id).Found? ==> GetAsWritten(st, id) == Get(st, id)
    ensures id.index != |st.interned| ==> GetAsWritten(st, id) == Get(st, id)
  {
  }

  /** `StringInternal::add`: a string already in the map returns its id and changes
      nothing; a new string is interned, entered in the map under the interned
      slice's content, and gets the next id. Either way the id resolves to `s`. */
  function Add(st: StringInternal, s: Text): (r: (StringInternal, StringId))
    requires Valid(st)
    ensures Valid(r.0)
    ensures Extends(st, r.0)
    ensures r.0.strings == st.strings[s := r.1]
    ensures s in st.strings ==> r.0 == st && r.1 == st.strings[s]
    ensures s !in st.strings ==> r.1.index == |st.interned| && |r.0.interned| == |st.interned| + 1
    ensures Get(r.0, r.1) == Found(s)
  {
    if s in st.strings then
      (st, st.strings[s])
    else
      var r := Intern(st, s);
      var next := r.next.(strings := r.next.strings[Resolve(r.next, r.slice) := r.id]);
      AddKeepsValid(st, s, r, next);
      (next, r.id)
  }

  /** A fresh string's entry extends the map/table bijection by one pair. */
  lemma AddKeepsValid(st: StringInternal, s: Text, r: Interned, next: StringInternal)
    requires Valid(st) && s !in st.strings
    requires HandlesLive(r.next) && ArenasWellFormed(r.next) && Extends(st, r.next)
    requires r.next.strings == st.strings
    requires r.next.interned == st.interned + [r.slice] && r.id.index == |st.interned|
    requires Live(r.next, r.slice) && Resolve(r.next, r.slice) == s
    requires next == r.next.(strings := st.strings[s := r.id])
    ensures Valid(next) && Extends(st, next)
    ensures forall i :: 0 <= i < |st.interned| ==> TextAt(next, i) == TextAt(st, i)
  {
    var n := |st.interned|;
    assert HandlesLive(next) && ArenasWellFormed(next);
    assert Extends(st, next);
    forall i | 0 <= i < n
      ensures TextAt(next, i) == TextAt(st, i)
    {
      TextStable(st, next, i);
    }
    assert TextAt(next, n) == s;
    NewEntryKeysResolve(st, s, next);
    NewEntryTextsIndexed(st, s, next);
  }

  /** After entering a fresh string, every key of the map resolves back to itself. */
  lemma NewEntryKeysResolve(st: StringInternal, s: Text, next: StringInternal)
    requires Valid(st) && s !in st.strings
    requires HandlesLive(next) && Extends(st, next)
    requires |next.interned| == |st.interned| + 1 && TextAt(next, |st.interned|) == s
    requires next.strings == st.strings[s := StringId(|st.interned|)]
    ensures forall k :: k in next.strings ==>
              next.strings[k].index < |next.interned| && TextAt(next, next.strings[k].index) == k
  {
    forall k | k in next.strings
      ensures next.strings[k].index < |next.interned| && TextAt(next, next.strings[k].index) == k
    {
      if k != s {
        var i := st.strings[k].index;
        assert next.strings[k].index == i && TextAt(st, i) == k;
        TextStable(st, next, i);
      }
    }
  }

  /** After entering a fresh string, the map sends every table text to its index. */
  lemma NewEntryTextsIndexed(st: StringInternal, s: Text, next: StringInternal)
    requires Valid(st) && s !in st.strings
    requires HandlesLive(next) && Extends(st, next)
    requires |next.interned| == |st.interned| + 1 && TextAt(next, |st.interned|) == s
    requires next.strings == st.strings[s := StringId(|st.interned|)]
    ensures forall i :: 0 <= i < |next.interned| ==>
              TextAt(next, i) in next.strings && next.strings[TextAt(next, i)].index == i
  {
    forall i | 0 <= i < |next.interned|
      ensures TextAt(next, i) in next.strings && next.strings[TextAt(next, i)].index == i
    {
      if i < |st.interned| {
        var t := TextAt(st, i);
        TextStable(st, next, i);
        assert t in st.strings && t != s;
        assert next.strings[t] == st.strings[t];
      }
    }
  }

  /** Under `Extends` every table entry that existed reads the same text. */
  lemma TextStable(st: StringInternal, st': StringInternal, i: nat)
    requires HandlesLive(st) && HandlesLive(st') && Extends(st, st')
    requires i < |st.interned|
    ensures i < |st'.interned| && TextAt(st', i) == TextAt(st, i)
  {
    assert st'.interned[i] == st.interned[i];
    ExtendsKeepsHandle(st, st', st.interned[i]);
  }

  /** Under `Extends`, a handle that was live stays live and reads the same bytes. */
  lemma ExtendsKeepsHandle(st: StringInternal, st': StringInternal, h: Handle)
    requires Extends(st, st') && Live(st, h)
    ensures Live(st', h) && Resolve(st', h) == Resolve(st, h)
  {
    if h.arena < |st.buffers| {
      assert ArenaAt(st', h.arena) == st.buffers[h.arena];
    } else {
      assert ArenaAt(st', h.arena).bytes[h.start..h.end] == st.buffer.bytes[h.start..h.end];
    }
  }

  /** Why the growth step retires the arena instead of appending past its capacity:
      such an append moves the arena to a new allocation, and every slice already
      borrowed from it dangles. */
  lemma PushPastCapacityDangles(st: StringInternal, s: Text, i: nat)
    requires Valid(st)
    requires i < |st.interned| && st.interned[i].arena == |st.buffers|
    requires |st.buffer.bytes| + |s| > st.buffer.capacity
    ensures !Live(st.(buffer := PushStr(st.buffer, s)), st.interned[i])
  {
    assert Live(st, st.interned[i]);
  }
}
