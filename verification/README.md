# String interning, modelled in Dafny

A model of `StringInternal`, the string interner of `src/lib.rs`. The interner
deduplicates text: `add` returns a small copyable `StringId` for a string, the
same id for every later call with equal content, and `get` turns the id back
into the text. It keeps three pieces of state:

- the dedup map `strings`, from content to id;
- the active arena `buffer`, where new strings are appended, and the retired
  arenas `buffers`;
- the identifier table `interned`, one slice per distinct string, indexed by id.

The Rust code stores `&str` slices into its arenas and widens their lifetime
with an unchecked `transmute`. It argues that this is safe because an arena is
never appended past its capacity: before that could happen, the arena is retired
and a fresh one takes over. The model makes that argument checkable:

- An `Arena` has bytes, a capacity and a `generation`. `PushStr` models
  `String::push_str`: when the bytes do not fit, the buffer moves to a new
  allocation and the generation changes.
- A table entry is a `Handle` holding the arena index, the generation it was
  borrowed at, and the byte range `[start, end)`.
- A handle is `Live` only while its arena still has that generation. The
  invariant `HandlesLive` says every table entry is live. `Intern` preserves it,
  and that is exactly the retire-before-grow rule at work.
  `PushPastCapacityDangles` shows what appending without that rule would break.

Files:

- `power_of_two.dfy` (module `PowersOfTwo`): `next_power_of_two`.
- `arena.dfy` (module `Arenas`): bytes, arenas, `with_capacity` and `push_str`.
- `interner.dfy` (module `StringInterning`): the interner, its constructors,
  `add`, `get` and `intern`, the invariant `Valid`, and the growth relation
  `Extends`.
- `properties.dfy` (module `InterningProperties`): properties over whole runs of
  `add`. These cover idempotence, the round trip, stability and density.

Every public operation (`Add`, `Get`) requires `Valid`. All three
constructors establish it, and `Add` preserves it, so every interner a program
can build satisfies it.

## Model

| member | source | states |
|---|---|---|
| PowersOfTwo.NextPowerOfTwo | src/lib.rs:93 | The result is a power of two, at least one, at least the argument, and no larger than any other power of two that reaches the argument. |
| PowersOfTwo.NextPowerOfTwoFrom | src/lib.rs:93 | Doubling a power of two until it reaches `n` yields a power of two that reaches `n`, and whose half does not reach `n`. |
| PowersOfTwo.RoundedIsLeast | src/lib.rs:93 | A power of two whose half falls short of `n` is the least power of two that is at least `n`. |
| Arenas.Allocate | src/lib.rs:95 | A newly allocated buffer is empty, well-formed, and has exactly the requested capacity. |
| Arenas.PushStr | src/lib.rs:100 | Appending keeps the existing bytes as a prefix and puts the new bytes right after them. The buffer stays in the same allocation exactly when the bytes fit in its capacity. |
| StringInterning.WithCapacity | src/lib.rs:42-49 | Yields an empty, valid interner: empty map, empty table, no retired arenas, and an empty active arena of the requested capacity. |
| StringInterning.New | src/lib.rs:31-38 | Yields an empty, valid interner whose first arena has capacity 100. |
| StringInterning.WithCapacityForInternals | src/lib.rs:54-61 | Yields a valid interner identical to `with_capacity` of the same byte capacity. The expected string count has no behavioural effect. |
| StringInterning.Reserve | src/lib.rs:92-97 | Afterwards the active arena has room for the new string strictly below its capacity. When the string would reach the capacity, the old arena is appended to the retired arenas unchanged, and the new active arena is empty with capacity `len + next_power_of_two(old capacity)`. Otherwise the state is unchanged. Earlier slices stay live. |
| StringInterning.Intern | src/lib.rs:84-107 | The table grows by exactly one slice, which resolves to the string's bytes. The new id is the old table length. When the string fits strictly below the capacity, no arena is retired: the active arena keeps its capacity, the string is appended right after its bytes, and the slice starts at the old length. Otherwise the old arena is retired unchanged, and the new active arena holds exactly the string, has capacity `len + next_power_of_two(old capacity)`, and the slice starts at 0. Nothing already issued changes, and every earlier slice stays live. |
| StringInterning.PushKeepsHandles | src/lib.rs:98-105 | An in-place append to the active arena keeps every live slice live, and each one reads the same bytes. |
| StringInterning.ExtendsKeepsHandle | src/lib.rs:101-105 | Once retired arenas are kept and the old active arena is only appended to, every slice that was live stays live and resolves to the same text. |
| StringInterning.AddKeepsValid | src/lib.rs:69-72 | Entering a new string and its slice keeps the map and the table exact inverses, with equal sizes. Earlier texts stay unchanged. |
| StringInterning.NewEntryKeysResolve | src/lib.rs:70-71 | After a fresh string is entered under the next id, every key of the map still resolves, through its id, to the key itself. |
| StringInterning.NewEntryTextsIndexed | src/lib.rs:70-71 | After a fresh string is entered under the next id, the map sends every text of the table to that text's index. |
| StringInterning.TextStable | src/lib.rs:101-105 | Once retired arenas are kept and the old active arena is only appended to, every existing table entry reads the same text. |
| StringInterning.Add | src/lib.rs:64-74 | Preserves `Valid` and changes nothing already issued. The map gains exactly the entry `s -> id`. A hit returns the stored id and leaves the state unchanged. A miss returns the old table length as the id and grows the table by one. In both cases `get` of the id returns `s`. |
| StringInterning.Get | src/lib.rs:79-82 | Finds a text exactly when the id is inside the table. The found text maps back to the same id in the dedup map. Any other id panics at the assertion. |
| StringInterning.GetAsWritten | src/lib.rs:79-82 | As written: finds a text exactly when the id is inside the table. The id equal to the table length panics in the index bounds check, not at the assertion. |
| StringInterning.GetAsWrittenAdmitsLength | src/lib.rs:80-81 | For the one-past-the-end id, the written assertion passes and the index panics. The intended assertion rejects that id itself. |
| StringInterning.GetAgreesWithAsWritten | src/lib.rs:80-81 | Both versions of `get` find a text for the same ids and return the same text. They differ only on the one-past-the-end id, and only in where the panic is raised. |
| StringInterning.PushPastCapacityDangles | src/lib.rs:87-97 | Appending to the active arena past its capacity, without retiring it first, leaves any slice already borrowed from it dangling. |
| InterningProperties.Extend | src/lib.rs:105-106 | A reference definition of first-seen order: the strings seen so far, followed by each new string the first time it appears. It keeps what was already seen as a prefix, and it keeps distinctness. |
| InterningProperties.ExtendMembers | src/lib.rs:64-73 | Every added string occurs in the first-seen order. Every string in that order was seen earlier or was added. |
| InterningProperties.AddAll | src/lib.rs:126-128 | Adding strings one after another keeps the interner valid, changes nothing already issued, and returns one id per string. |
| InterningProperties.NoDuplicates | src/lib.rs:66-72 | The table of a valid interner holds no text twice. |
| InterningProperties.InMapIffInTable | src/lib.rs:66-71 | A string is a key of the dedup map exactly when it is one of the table's texts. |
| InterningProperties.GetStable | src/lib.rs:101-105 | Across any growth, every id already issued resolves to the same text as before. |
| InterningProperties.AddIdempotent | src/lib.rs:115-121 | Adding the same content a second time returns the first call's id and leaves the state unchanged. |
| InterningProperties.AddTexts | src/lib.rs:64-73 | One `add` appends its string to the table's texts exactly when the string is not already there. Otherwise the texts are unchanged. |
| InterningProperties.AppendedText | src/lib.rs:105 | A step that keeps every existing entry and adds one entry reading `s` appends `s` to the table's texts. |
| InterningProperties.AddAllDensity | src/lib.rs:105-106 | After a run of adds, the table's texts are the earlier texts followed by the new distinct strings in first-seen order. The id returned for each string is that string's position in this sequence, so the k-th distinct string gets id k. |
| InterningProperties.AddAllRoundTrip | src/lib.rs:129-133 | After a run of adds, each returned id resolves to the string it was returned for, however many arena retirements happened later in the run. |
| InterningProperties.AddAllStable | src/lib.rs:101-105 | After any run of adds, every id issued before the run resolves as before. A later `add` of an existing string returns the id from its first call. |
| InterningProperties.AddAllPresent | src/lib.rs:129-131 | Re-adding strings that are all present leaves the state unchanged and returns their stored ids. |
| InterningProperties.ExtendFresh | src/lib.rs:126-128 | Distinct strings that are all new are appended to the first-seen order in the order given. |
| InterningProperties.DistinctGetPositions | src/lib.rs:124-134 | Adding pairwise-distinct strings to an interner with an empty table yields ids 0, 1, 2, ... in order, and each id resolves to its string. Adding the same strings again returns the same ids and changes nothing. This holds for any initial arena capacity. |
| InterningProperties.DistinctTable | src/lib.rs:126-128 | After adding pairwise-distinct strings to an interner with an empty table, the table's texts are exactly those strings, in the order given. |
| InterningProperties.DistinctIdsArePositions | src/lib.rs:131 | For pairwise-distinct strings added to an interner with an empty table, the i-th returned id is i. |
| InterningProperties.ReAddReturnsSameIds | src/lib.rs:129-131 | Adding the strings of a finished run a second time returns the same ids and leaves the state unchanged. |
| InterningProperties.ItWorksBasic | src/lib.rs:115-121 | On a new interner, adding "hello world!" twice returns one id, and that id resolves to "hello world!". |
| InterningProperties.ExampleWorks | src/lib.rs:137-141 | On a new interner, the id returned for "Mr. Smith" resolves to "Mr. Smith". |
| InterningProperties.EmptyStringShared | src/lib.rs:64-73 | The empty string needs no special case. Adding it twice returns one id, and that id resolves to the empty text. |

## Left out

- Machine integers: lengths, capacities and ids are unbounded naturals. In the source, `len + buffer.len()`, `len + new_capacity` and `next_power_of_two` work on `usize`. They could only overflow for buffers far larger than any allocation can be, so allocation would fail first.
- Allocator behaviour: `String::with_capacity` is modelled as granting exactly the requested capacity. The capacity a relocating `push_str` picks is the standard library's policy. The model uses doubling, and the interner never takes that path.
- Allocation failure: out of scope, as is the memory the arenas occupy.
- Table pre-sizing: `Vec::with_capacity` on the table is a performance hint with no behavioural effect. `WithCapacityForInternals` ignores the expected count.
- Hashing: the `HashMap` is modelled as a Dafny `map` with exact byte equality.
- `AsRef<str>`: the generic conversion is left out. Text is a sequence of bytes, because Rust measures `str` length in bytes. UTF-8 validity is not tracked, since whole strings are copied and every slice covers one whole string.
- `unsafe` lifetime extension: replaced by generation-checked handles, as described above. Rust lifetimes are not modelled.
- Identifiers from another interner: a `StringId` is a bare index with no instance tag, so an id from another interner goes undetected. Out of range it panics; in range it resolves against the interner it is given.
- Growth capacity: the replacement arena has capacity `len + next_power_of_two(old capacity)` (src/lib.rs:93-95), and `Reserve` and `Intern` state exactly that.
- The five-million-string test: kept only as the general lemma `DistinctGetPositions`, which holds for any sequence of distinct strings.

## Findings

| source | as written | input that shows it | evidently intended | confidence | as-written member | corrected member |
|---|---|---|---|---|---|---|
| src/lib.rs:80 | The range assertion in `get` compares the id with the table length using "less than or equal". | `StringId(0)` on a freshly built interner, or in general an id equal to the table length. | The assertion itself rejects every id at or beyond the table length. | not executed; the call still panics, now in the index on line 81, so only where the panic is raised and its message change. | StringInterning.GetAsWritten, StringInterning.GetAsWrittenAdmitsLength | StringInterning.Get |
