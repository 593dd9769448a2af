/**
  Properties of the interner over sequences of `add` calls: idempotence, the
  round trip through `get`, stability of every issued id, and density (the k-th
  distinct string receives id k).
 */
module InterningProperties {
  import opened Arenas
  import opened StringInterning

  /** No text occurs twice. */
  predicate Distinct<T(==)>(xs: seq<T>)
  {
    forall i, j :: 0 <= i < j < |xs| ==> xs[i] != xs[j]
  }

  /** The reference order of first appearance: `seen` followed by each string of
      `xs` that has not appeared earlier in `seen` or in `xs`. */
  function Extend<T(==)>(seen: seq<T>, xs: seq<T>): (r: seq<T>)
    ensures seen <= r
    ensures Distinct(seen) ==> Distinct(r)
    decreases |xs|
  {
    if xs == [] then seen
    else
      var seen' := if xs[0] in seen then seen else seen + [xs[0]];
      assert Distinct(seen) ==> Distinct(seen');
      Extend(seen', xs[1..])
  }

  /** The first-seen order holds every string of `xs` and nothing that was neither
      seen nor in `xs`. */
  lemma {:induction false} ExtendMembers<T>(seen: seq<T>, xs: seq<T>)
    ensures forall i :: 0 <= i < |xs| ==> xs[i] in Extend(seen, xs)
    ensures forall j :: 0 <= j < |Extend(seen, xs)| ==>
              Extend(seen, xs)[j] in seen || Extend(seen, xs)[j] in xs
    decreases |xs|
  {
    if xs != [] {
      var seen' := if xs[0] in seen then seen else seen + [xs[0]];
      var r := Extend(seen', xs[1..]);
      ExtendMembers(seen', xs[1..]);
      assert xs[0] in seen';
      assert forall i :: 1 <= i < |xs| ==> xs[i] == xs[1..][i - 1];
      assert forall x :: x in xs[1..] ==> x in xs;
    }
  }

  /** The texts of the table in id order. */
  function Texts(st: StringInternal): (r: seq<Text>)
    requires HandlesLive(st)
    ensures |r| == |st.interned|
    ensures forall i :: 0 <= i < |r| ==> r[i] == TextAt(st, i)
  {
    seq(|st.interned|, i requires 0 <= i < |st.interned| => TextAt(st, i))
  }

  /** `add` applied to each string of `xs` in turn, collecting the ids. */
  function AddAll(st: StringInternal, xs: seq<Text>): (r: (StringInternal, seq<StringId>))
    requires Valid(st)
    ensures Valid(r.0) && Extends(st, r.0)
    ensures |r.1| == |xs|
    decreases |xs|
  {
    if xs == [] then (st, [])
    else
      var (st1, id) := Add(st, xs[0]);
      var (st2, ids) := AddAll(st1, xs[1..]);
      ExtendsTransitive(st, st1, st2);
      (st2, [id] + ids)
  }

  /** Growth composes: what two steps keep, the pair of them keeps. */
  lemma ExtendsTransitive(a: StringInternal, b: StringInternal, c: StringInternal)
    requires Extends(a, b) && Extends(b, c)
    ensures Extends(a, c)
  {
    if |a.buffers| < |b.buffers| {
      assert ArenaAt(b, |a.buffers|) == b.buffers[|a.buffers|] == c.buffers[|a.buffers|];
    }
  }

  /** The table of a valid interner holds no text twice. */
  lemma NoDuplicates(st: StringInternal)
    requires Valid(st)
    ensures Distinct(Texts(st))
  {
    var t := Texts(st);
    forall i, j | 0 <= i < j < |t|
      ensures t[i] != t[j]
    {
      assert st.strings[TextAt(st, i)].index == i;
      assert st.strings[TextAt(st, j)].index == j;
    }
  }

  /** A string is in the dedup map exactly when it is one of the table's texts. */
  lemma InMapIffInTable(st: StringInternal, s: Text)
    requires Valid(st)
    ensures s in st.strings <==> s in Texts(st)
  {
    if s in st.strings {
      assert Texts(st)[st.strings[s].index] == s;
    }
    if s in Texts(st) {
      var i :| 0 <= i < |Texts(st)| && Texts(st)[i] == s;
      assert TextAt(st, i) in st.strings;
    }
  }

  /** Under growth every id already issued resolves to the same text. */
  lemma GetStable(st: StringInternal, st': StringInternal, id: StringId)
    requires Valid(st) && Valid(st') && Extends(st, st')
    requires id.index < |st.interned|
    ensures Get(st', id) == Get(st, id)
  {
    assert st'.interned[id.index] == st.interned[id.index];
    ExtendsKeepsHandle(st, st', st.interned[id.index]);
  }

  /** Adding the same content twice: the second call finds it, returns the first
      call's id, and changes nothing. */
  lemma AddIdempotent(st: StringInternal, s: Text)
    requires Valid(st)
    ensures Add(Add(st, s).0, s) == Add(st, s)
  {
  }

  /** One `add` appends its string to the table exactly when the string is new. */
  lemma AddTexts(st: StringInternal, s: Text)
    requires Valid(st)
    ensures Texts(Add(st, s).0) == if s in Texts(st) then Texts(st) else Texts(st) + [s]
  {
    InMapIffInTable(st, s);
    var (st', id) := Add(st, s);
    if s !in st.strings {
      assert Get(st', id) == Found(s);
      AppendedText(st, st', s);
    }
  }

  /** A step that keeps every entry and adds one entry reading `s` appends `s` to
      the texts. */
  lemma AppendedText(st: StringInternal, st': StringInternal, s: Text)
    requires HandlesLive(st) && HandlesLive(st') && Extends(st, st')
    requires |st'.interned| == |st.interned| + 1
    requires TextAt(st', |st.interned|) == s
    ensures Texts(st') == Texts(st) + [s]
  {
    var t, t' := Texts(st), Texts(st');
    forall i | 0 <= i < |t'|
      ensures t'[i] == (t + [s])[i]
    {
      AppendIndex(t, s, i);
      if i < |t| {
        TextStable(st, st', i);
      }
    }
  }

  /*
    Index facts about sequences. Dafny knows each of them already; they are
    stated once, generically, so that the proofs below can cite them at the
    exact index they need instead of having the solver compare whole texts.
   */

  /** Index `i` of `t + [x]`. */
  lemma AppendIndex<T>(t: seq<T>, x: T, i: nat)
    requires i <= |t|
    ensures (t + [x])[i] == if i < |t| then t[i] else x
  {
  }

  /** Density: after adding `xs` the table is the reference first-seen order, and
      the id returned for each string is its position in that table. */
  lemma {:induction false} AddAllDensity(st: StringInternal, xs: seq<Text>)
    requires Valid(st)
    ensures Texts(AddAll(st, xs).0) == Extend(Texts(st), xs)
    ensures forall i :: 0 <= i < |xs| ==>
              AddAll(st, xs).1[i].index < |Texts(AddAll(st, xs).0)|
              && Texts(AddAll(st, xs).0)[AddAll(st, xs).1[i].index] == xs[i]
    decreases |xs|
  {
    AddAllRoundTrip(st, xs);
    if xs != [] {
      var (st1, id) := Add(st, xs[0]);
      AddTexts(st, xs[0]);
      AddAllDensity(st1, xs[1..]);
    }
    var (fin, ids) := AddAll(st, xs);
    forall i | 0 <= i < |xs|
      ensures ids[i].index < |Texts(fin)| && Texts(fin)[ids[i].index] == xs[i]
    {
      assert Get(fin, ids[i]) == Found(xs[i]);
    }
  }

  /** Round trip over a whole run: every returned id resolves to the string it was
      returned for, however many later strings forced the arenas to grow. */
  lemma {:induction false} AddAllRoundTrip(st: StringInternal, xs: seq<Text>)
    requires Valid(st)
    ensures forall i :: 0 <= i < |xs| ==> Get(AddAll(st, xs).0, AddAll(st, xs).1[i]) == Found(xs[i])
    decreases |xs|
  {
    if xs != [] {
      var (st1, id) := Add(st, xs[0]);
      var (fin, ids) := AddAll(st1, xs[1..]);
      var all := [id] + ids;
      assert AddAll(st, xs) == (fin, all);
      AddAllRoundTrip(st1, xs[1..]);
      GetStable(st1, fin, id);
      assert forall i :: 0 <= i < |xs| ==> Get(fin, all[i]) == Found(xs[i]) by {
        forall i | 1 <= i < |xs|
          ensures Get(fin, all[i]) == Found(xs[i])
        {
          ShiftIndex(id, ids, i);
          TailIndex(xs, i);
        }
      }
    }
  }

  /** Index `i` of `[x] + rest` is index `i - 1` of `rest`. */
  lemma ShiftIndex<T>(x: T, rest: seq<T>, i: nat)
    requires 1 <= i <= |rest|
    ensures ([x] + rest)[i] == rest[i - 1]
  {
  }

  /** Index `i - 1` of the tail of `xs` is index `i` of `xs`. */
  lemma TailIndex<T>(xs: seq<T>, i: nat)
    requires 1 <= i < |xs|
    ensures xs[1..][i - 1] == xs[i]
  {
  }

  /** Stability over a whole run: ids issued before it resolve as before, and
      strings already present keep their ids, so a later `add` of them returns
      the id from their first call. */
  lemma AddAllStable(st: StringInternal, xs: seq<Text>)
    requires Valid(st)
    ensures forall id: StringId :: id.index < |st.interned| ==> Get(AddAll(st, xs).0, id) == Get(st, id)
    ensures forall s :: s in st.strings ==> Add(AddAll(st, xs).0, s).1 == st.strings[s]
  {
    var fin := AddAll(st, xs).0;
    forall id: StringId | id.index < |st.interned|
      ensures Get(fin, id) == Get(st, id)
    {
      GetStable(st, fin, id);
    }
  }

  /** Re-adding strings that are all present changes nothing and returns their ids. */
  lemma {:induction false} AddAllPresent(st: StringInternal, xs: seq<Text>)
    requires Valid(st)
    requires forall i :: 0 <= i < |xs| ==> xs[i] in st.strings
    ensures AddAll(st, xs).0 == st
    ensures forall i :: 0 <= i < |xs| ==> AddAll(st, xs).1[i] == st.strings[xs[i]]
    decreases |xs|
  {
    if xs != [] {
      AddAllPresent(st, xs[1..]);
    }
  }

  /** Fresh distinct strings are appended in order. */
  lemma {:induction false} ExtendFresh<T>(seen: seq<T>, xs: seq<T>)
    requires Distinct(xs)
    requires forall i :: 0 <= i < |xs| ==> xs[i] !in seen
    ensures Extend(seen, xs) == seen + xs
    decreases |xs|
  {
    if xs != [] {
      var seen', rest := seen + [xs[0]], xs[1..];
      TailStaysFresh(seen, xs);
      ExtendFresh(seen', rest);
      assert seen' + rest == seen + xs;
    }
  }

  /** Moving the head of distinct fresh strings into `seen` leaves a tail that is
      still distinct and fresh. */
  lemma TailStaysFresh<T>(seen: seq<T>, xs: seq<T>)
    requires xs != [] && Distinct(xs)
    requires forall i :: 0 <= i < |xs| ==> xs[i] !in seen
    ensures Distinct(xs[1..])
    ensures forall i :: 0 <= i < |xs[1..]| ==> xs[1..][i] !in seen + [xs[0]]
  {
    var rest := xs[1..];
    forall i | 0 <= i < |rest|
      ensures rest[i] !in seen + [xs[0]]
    {
      assert rest[i] == xs[i + 1] && xs[i + 1] != xs[0];
    }
    forall i, j | 0 <= i < j < |rest|
      ensures rest[i] != rest[j]
    {
      assert rest[i] == xs[i + 1] && rest[j] == xs[j + 1];
    }
  }

  /** Adding pairwise-distinct strings to an empty interner hands out ids 0, 1, 2, ...
      in order, each resolving to its string, and adding the same strings again
      returns the same ids without changing anything. */
  lemma DistinctGetPositions(st: StringInternal, xs: seq<Text>)
    requires Valid(st) && st.interned == []
    requires Distinct(xs)
    ensures forall i :: 0 <= i < |xs| ==> AddAll(st, xs).1[i] == StringId(i)
    ensures forall i :: 0 <= i < |xs| ==> Get(AddAll(st, xs).0, StringId(i)) == Found(xs[i])
    ensures AddAll(AddAll(st, xs).0, xs) == AddAll(st, xs)
  {
    DistinctIdsArePositions(st, xs);
    AddAllRoundTrip(st, xs);
    ReAddReturnsSameIds(st, xs);
  }

  /** For distinct strings added to an empty interner, the i-th id is i. */
  lemma DistinctIdsArePositions(st: StringInternal, xs: seq<Text>)
    requires Valid(st) && st.interned == []
    requires Distinct(xs)
    ensures forall i :: 0 <= i < |xs| ==> AddAll(st, xs).1[i] == StringId(i)
  {
    var (fin, ids) := AddAll(st, xs);
    AddAllDensity(st, xs);
    DistinctTable(st, xs);
    forall i | 0 <= i < |xs|
      ensures ids[i] == StringId(i)
    {
      DistinctIndex(xs, ids[i].index, i);
    }
  }

  /** Distinct strings added to an empty interner make up its table, in order. */
  lemma DistinctTable(st: StringInternal, xs: seq<Text>)
    requires Valid(st) && st.interned == []
    requires Distinct(xs)
    ensures Texts(AddAll(st, xs).0) == xs
  {
    AddAllDensity(st, xs);
    ExtendFresh([], xs);
    EmptyPrefix(xs);
    assert Texts(st) == [];
  }

  /** Equal entries of a distinct sequence sit at the same index. */
  lemma DistinctIndex<T>(xs: seq<T>, a: nat, b: nat)
    requires Distinct(xs) && a < |xs| && b < |xs|
    requires xs[a] == xs[b]
    ensures a == b
  {
  }

  /** Appending to the empty sequence. */
  lemma EmptyPrefix<T>(xs: seq<T>)
    ensures [] + xs == xs
  {
  }

  /** Adding a run again after it finished returns the same ids and changes nothing. */
  lemma ReAddReturnsSameIds(st: StringInternal, xs: seq<Text>)
    requires Valid(st)
    ensures AddAll(AddAll(st, xs).0, xs) == AddAll(st, xs)
  {
    var (fin, ids) := AddAll(st, xs);
    AddAllRoundTrip(st, xs);
    forall i | 0 <= i < |xs|
      ensures xs[i] in fin.strings && fin.strings[xs[i]] == ids[i]
    {
      assert Get(fin, ids[i]) == Found(xs[i]);
    }
    AddAllPresent(fin, xs);
    assert AddAll(fin, xs).1 == ids;
  }

  /** The bytes of "hello world!". */
  const HelloWorld: Text := [104, 101, 108, 108, 111, 32, 119, 111, 114, 108, 100, 33]

  /** The bytes of "Mr. Smith". */
  const MrSmith: Text := [77, 114, 46, 32, 83, 109, 105, 116, 104]

  /** Adding "hello world!" twice to a new interner returns one id, which resolves
      to "hello world!". */
  lemma ItWorksBasic()
    ensures Add(Add(New(), HelloWorld).0, HelloWorld).1 == Add(New(), HelloWorld).1
    ensures Get(Add(New(), HelloWorld).0, Add(New(), HelloWorld).1) == Found(HelloWorld)
  {
  }

  /** The documented example: "Mr. Smith" resolves to "Mr. Smith". */
  lemma ExampleWorks()
    ensures Get(Add(New(), MrSmith).0, Add(New(), MrSmith).1) == Found(MrSmith)
  {
  }

  /** The empty string is an ordinary entry: adding it twice returns one id, which
      resolves to the empty text. */
  lemma EmptyStringShared(st: StringInternal)
    requires Valid(st)
    ensures Add(Add(st, []).0, []).1 == Add(st, []).1
    ensures Get(Add(st, []).0, Add(st, []).1) == Found([])
  {
    AddIdempotent(st, []);
  }
}
