/** The order in which a table's entries are visited leaves no trace in what is decoded (`lae/source/lua_cjson.c`). */
module JsonOrder {
  import opened Bytes
  import opened Json
  import opened JsonGrammar
  import opened JsonAccepts
  import opened JsonLimits
  import opened JsonRoundTrip

  /** No two entries under one key. */
  ghost predicate Unique(es: seq<(Key, Val)>)
  {
    forall i, j :: 0 <= i < j < |es| ==> es[i].0 != es[j].0
  }

  /** The second heap has the tables of the first, each with its entries in an order of its own. */
  ghost predicate Reordered(h: Heap, h': Heap)
  {
    UniqueKeys(h) && forall ref :: Shuffled(Entries(h, ref), Entries(h', ref))
  }

  ghost predicate Shuffled(es: seq<(Key, Val)>, es': seq<(Key, Val)>)
  {
    multiset(es) == multiset(es')
  }

  lemma {:induction false} ShuffledMembers(es: seq<(Key, Val)>, es': seq<(Key, Val)>)
    requires Shuffled(es, es')
    ensures |es| == |es'| && forall x :: x in es <==> x in es'
  {
    assert |multiset(es)| == |multiset(es')|;
    forall x ensures x in es <==> x in es' {
      assert x in es <==> x in multiset(es);
      assert x in es' <==> x in multiset(es');
    }
  }

  lemma {:induction false} CountOnce(es: seq<(Key, Val)>, a: nat)
    requires Unique(es) && a < |es|
    ensures multiset(es)[es[a]] == 1
  {
    var x := es[a];
    assert es == es[..a] + [x] + es[a + 1..];
    assert x !in es[..a] && x !in es[a + 1..];
    assert multiset(es) == multiset(es[..a]) + multiset{x} + multiset(es[a + 1..]);
  }

  lemma {:induction false} CountTwice(es: seq<(Key, Val)>, i: nat, j: nat)
    requires i < j < |es| && es[i] == es[j]
    ensures multiset(es)[es[i]] >= 2
  {
    assert es == es[..j] + es[j..];
    assert multiset(es) == multiset(es[..j]) + multiset(es[j..]);
    assert es[..j][i] == es[i] && es[j..][0] == es[i];
    assert es[i] in multiset(es[..j]) && es[i] in multiset(es[j..]);
  }

  /** Reordering keeps keys unique. */
  lemma {:induction false} UniqueStays(es: seq<(Key, Val)>, es': seq<(Key, Val)>)
    requires Unique(es) && Shuffled(es, es')
    ensures Unique(es')
  {
    ShuffledMembers(es, es');
    forall i, j | 0 <= i < j < |es'| ensures es'[i].0 != es'[j].0 {
      if es'[i].0 == es'[j].0 {
        assert es'[i] in es && es'[j] in es;
        var a :| 0 <= a < |es| && es[a] == es'[i];
        var b :| 0 <= b < |es| && es[b] == es'[j];
        CountOnce(es, a);
        CountTwice(es', i, j);
      }
    }
  }

  /** The value v is stored under the index i. */
  predicate Under(es: seq<(Key, Val)>, i: nat, v: Val)
  {
    (NumKey(Finite(i as real)), v) in es
  }

  /** What a look-up finds: the value under the index, or nil. */
  lemma {:induction false} RawGetIs(es: seq<(Key, Val)>, i: nat)
    requires Unique(es)
    ensures forall v :: Under(es, i, v) ==> RawGet(es, i) == v
    ensures (forall v :: !Under(es, i, v)) ==> RawGet(es, i) == Nil
    decreases |es|
  {
    var key := NumKey(Finite(i as real));
    if |es| > 0 {
      var rest := es[1..];
      RawGetIs(rest, i);
      assert es == [es[0]] + rest;
      if es[0].0 == key {
        assert Under(es, i, es[0].1);
        forall v | Under(es, i, v) ensures v == es[0].1 {
          var j :| 0 <= j < |es| && es[j] == (key, v);
        }
      } else {
        assert forall v :: Under(es, i, v) <==> Under(rest, i, v);
      }
    }
  }

  lemma {:induction false} RawGetSame(es: seq<(Key, Val)>, es': seq<(Key, Val)>, i: nat)
    requires Unique(es) && Shuffled(es, es')
    ensures RawGet(es, i) == RawGet(es', i)
  {
    hide RawGet, Unique;
    ShuffledMembers(es, es');
    UniqueStays(es, es');
    RawGetIs(es, i);
    RawGetIs(es', i);
    assert forall v :: Under(es, i, v) <==> Under(es', i, v);
    if v :| Under(es, i, v) {
      assert Under(es', i, v);
    }
  }

  lemma {:induction false} MaxIsReached(es: seq<(Key, Val)>)
    requires AllIndices(es) && |es| > 0
    ensures exists j :: 0 <= j < |es| && IndexOf(es[j].0) == MaxIndex(es)
    decreases |es|
  {
    var n := |es| - 1;
    assert IndexOf(es[n].0) >= 1;
    if MaxIndex(es) == IndexOf(es[n].0) {
    } else {
      assert MaxIndex(es) == MaxIndex(es[..n]);
      assert n > 0;
      MaxIsReached(es[..n]);
      var j :| 0 <= j < n && IndexOf(es[..n][j].0) == MaxIndex(es[..n]);
      assert es[j] == es[..n][j];
    }
  }

  lemma {:induction false} IndicesSame(es: seq<(Key, Val)>, es': seq<(Key, Val)>)
    requires Shuffled(es, es') && AllIndices(es)
    ensures AllIndices(es')
  {
    ShuffledMembers(es, es');
    forall j | 0 <= j < |es'| ensures IsIndex(es'[j].0) {
      assert es'[j] in es;
    }
  }

  lemma {:induction false} MaxBelow(es: seq<(Key, Val)>, es': seq<(Key, Val)>)
    requires Shuffled(es, es') && AllIndices(es) && AllIndices(es')
    ensures MaxIndex(es) <= MaxIndex(es')
  {
    hide IsIndex, IndexOf;
    ShuffledMembers(es, es');
    if |es| > 0 {
      MaxIsReached(es);
      var j :| 0 <= j < |es| && IndexOf(es[j].0) == MaxIndex(es);
      assert es[j] in es';
      var a :| 0 <= a < |es'| && es'[a] == es[j];
    }
  }

  predicate AllNumbers(es: seq<(Key, Val)>)
  {
    forall j :: 0 <= j < |es| ==> es[j].0.NumKey? && es[j].0.n.Finite?
  }

  /** The number n is a key, and no key is larger. */
  predicate Longest(es: seq<(Key, Val)>, n: int)
    requires AllNumbers(es)
  {
    && (exists j :: 0 <= j < |es| && es[j].0.n.r == n as real)
    && (forall j :: 0 <= j < |es| ==> es[j].0.n.r <= n as real)
  }

  lemma {:induction false} MaxExactly(es: seq<(Key, Val)>, n: int)
    requires AllIndices(es) && AllNumbers(es) && |es| > 0
    ensures MaxIndex(es) == n <==> Longest(es, n)
  {
    hide MaxIndex;
    MaxIsReached(es);
    var m :| 0 <= m < |es| && IndexOf(es[m].0) == MaxIndex(es);
    assert forall j :: 0 <= j < |es| ==> es[j].0.n.r == IndexOf(es[j].0) as real;
    if Longest(es, n) {
      var j :| 0 <= j < |es| && es[j].0.n.r == n as real;
      assert IndexOf(es[j].0) <= MaxIndex(es) && es[m].0.n.r <= n as real;
    }
  }

  /** A whole number from 1 on that a key is. */
  ghost predicate WholeKey(k: Key)
  {
    k.NumKey? && k.n.Finite? && k.n.r >= 1.0 && exists i: int :: IsInt(k.n.r, i)
  }

  predicate IsInt(r: real, i: int)
  {
    r == i as real
  }

  lemma {:induction false} WholeIsIndex(k: Key)
    ensures WholeKey(k) <==> IsIndex(k)
  {
    if IsIndex(k) { assert IsInt(k.n.r, k.n.r.Floor); }
  }

  /**
   When a table is an array, and of which length: its keys are whole numbers from 1 on and the
   largest is the length, and holes are tolerated, by the ratio of length to entries or by the
   length alone. With too many holes it is an object if that is wanted.
   */
  lemma {:induction false} ShapeExactly(cfg: Config, es: seq<(Key, Val)>, n: nat)
    ensures var whole := es != [] && forall j :: 0 <= j < |es| ==> WholeKey(es[j].0);
            var longest := whole && AllNumbers(es) && Longest(es, n);
            var holes := cfg.sparseRatio > 0 && n > |es| * cfg.sparseRatio && n > cfg.sparseSafe;
            && (ShapeOf(cfg, es) == ArrayOf(n) <==> longest && !holes)
            && (longest && holes ==> ShapeOf(cfg, es) == if cfg.sparseConvert then ObjectShape else TooSparse)
            && (!whole ==> ShapeOf(cfg, es) == ObjectShape)
  {
    hide MaxIndex, IsIndex, WholeKey, AllNumbers, Longest;
    assert forall j :: 0 <= j < |es| ==> (WholeKey(es[j].0) <==> IsIndex(es[j].0)) by {
      forall j | 0 <= j < |es| ensures WholeKey(es[j].0) <==> IsIndex(es[j].0) { WholeIsIndex(es[j].0); }
    }
    if AllIndices(es) {
      if es == [] {
        NoIndices();
      } else {
        IndicesAreNumbers(es);
        MaxExactly(es, n);
        MaxIsPositive(es);
      }
    }
  }

  lemma {:induction false} NoIndices()
    ensures MaxIndex([]) == 0
  {
  }

  lemma {:induction false} MaxIsPositive(es: seq<(Key, Val)>)
    requires AllIndices(es) && es != []
    ensures MaxIndex(es) >= 1
  {
    assert IndexOf(es[0].0) <= MaxIndex(es);
  }

  lemma {:induction false} IndicesAreNumbers(es: seq<(Key, Val)>)
    requires AllIndices(es)
    ensures AllNumbers(es)
  {
  }

  lemma {:induction false} ShapeSame(cfg: Config, es: seq<(Key, Val)>, es': seq<(Key, Val)>)
    requires Shuffled(es, es')
    ensures ShapeOf(cfg, es) == ShapeOf(cfg, es')
  {
    hide MaxIndex;
    ShuffledMembers(es, es');
    if AllIndices(es) {
      IndicesSame(es, es');
      MaxBelow(es, es');
      MaxBelow(es', es);
    } else if AllIndices(es') {
      IndicesSame(es', es);
    }
  }

  lemma {:induction false} KeyedSame(cfg: Config, cv: Conv, es: seq<(Key, Val)>, es': seq<(Key, Val)>)
    requires Keyed(cfg, cv, es) && Shuffled(es, es')
    ensures Keyed(cfg, cv, es')
  {
    hide KeyName, KeyReturns;
    ShuffledMembers(es, es');
    forall j | 0 <= j < |es'| ensures KeyReturns(cfg, cv, es'[j].0) {
      assert es'[j] in es;
    }
    forall j, k | 0 <= j < k < |es'| ensures KeyName(cfg, cv, es'[j].0) != KeyName(cfg, cv, es'[k].0) {
      if KeyName(cfg, cv, es'[j].0) == KeyName(cfg, cv, es'[k].0) {
        assert es'[j] in es && es'[k] in es;
        var a :| 0 <= a < |es| && es[a] == es'[j];
        var b :| 0 <= b < |es| && es[b] == es'[k];
        KeyedIsUnique(cfg, cv, es);
        assert a == b;
        CountOnce(es, a);
        CountTwice(es', j, k);
      }
    }
  }

  lemma {:induction false} KeyedIsUnique(cfg: Config, cv: Conv, es: seq<(Key, Val)>)
    requires Keyed(cfg, cv, es)
    ensures Unique(es)
  {
    hide KeyName, KeyReturns;
    forall i, j | 0 <= i < j < |es| ensures es[i].0 != es[j].0 {
      assert KeyName(cfg, cv, es[i].0) != KeyName(cfg, cv, es[j].0);
    }
  }

  lemma {:induction false} ItemTreesSame(cfg: Config, cv: Conv, h: Heap, h': Heap, es: seq<(Key, Val)>,
                                         es': seq<(Key, Val)>, n: nat, depth: nat)
    requires depth <= cfg.encodeMaxDepth && Unique(es) && Shuffled(es, es')
    requires forall i :: 1 <= i <= n ==>
               Meaning(cfg, cv, h', RawGet(es, i), depth) == Meaning(cfg, cv, h, RawGet(es, i), depth)
    ensures ItemTrees(cfg, cv, h', es', n, depth) == ItemTrees(cfg, cv, h, es, n, depth)
    decreases n
  {
    hide Meaning, RawGet, Unique, ItemTrees;
    if n > 0 {
      ItemTreesSame(cfg, cv, h, h', es, es', n - 1, depth);
      ItemTreesStep(cfg, cv, h, es, n, depth);
      ItemTreesStep(cfg, cv, h', es', n, depth);
      RawGetSame(es, es', n);
    } else {
      NoItemTrees(cfg, cv, h, es, depth);
      NoItemTrees(cfg, cv, h', es', depth);
    }
  }

  /** An array's tree holds under each index the value stored under it, and null where there is none. */
  lemma {:induction false} ItemsAreEntries(cfg: Config, cv: Conv, h: Heap, es: seq<(Key, Val)>, n: nat, depth: nat,
                                           i: nat)
    requires depth <= cfg.encodeMaxDepth && Unique(es) && 1 <= i <= n
    ensures var m := FromItems(ItemTrees(cfg, cv, h, es, n, depth));
            && m.Keys == (set k | 1 <= k <= n :: KInt(k))
            && (forall v :: Under(es, i, v) ==> m[KInt(i)] == Meaning(cfg, cv, h, v, depth))
            && ((forall v :: !Under(es, i, v)) ==> m[KInt(i)] == TNull)
  {
    hide Meaning, ItemTrees, Unique;
    ItemTreeAt(cfg, cv, h, es, n, depth, i);
    RawGetIs(es, i);
    NilMeans(cfg, cv, h, depth);
    var m := FromItems(ItemTrees(cfg, cv, h, es, n, depth));
    assert m[KInt(i)] == Meaning(cfg, cv, h, RawGet(es, i), depth);
  }

  lemma {:induction false} NilMeans(cfg: Config, cv: Conv, h: Heap, depth: nat)
    requires depth <= cfg.encodeMaxDepth
    ensures Meaning(cfg, cv, h, Nil, depth) == TNull
  {
  }

  lemma {:induction false} ItemTreeAt(cfg: Config, cv: Conv, h: Heap, es: seq<(Key, Val)>, n: nat, depth: nat, i: nat)
    requires depth <= cfg.encodeMaxDepth && 1 <= i <= n
    ensures ItemTrees(cfg, cv, h, es, n, depth)[i - 1] == Meaning(cfg, cv, h, RawGet(es, i), depth)
    decreases n
  {
    hide Meaning, RawGet, ItemTrees;
    ItemTreesStep(cfg, cv, h, es, n, depth);
    if i < n { ItemTreeAt(cfg, cv, h, es, n - 1, depth, i); }
  }

  lemma {:induction false} MemberTreesSame(cfg: Config, cv: Conv, h: Heap, h': Heap, es: seq<(Key, Val)>,
                                           es': seq<(Key, Val)>, depth: nat)
    requires depth <= cfg.encodeMaxDepth && Keyed(cfg, cv, es) && Shuffled(es, es')
    requires forall j :: 0 <= j < |es| ==> Meaning(cfg, cv, h', es[j].1, depth) == Meaning(cfg, cv, h, es[j].1, depth)
    ensures MemberTrees(cfg, cv, h', es', |es'|, depth) == MemberTrees(cfg, cv, h, es, |es|, depth)
  {
    hide Meaning, MemberTrees, KeyName, Keyed;
    ShuffledMembers(es, es');
    KeyedSame(cfg, cv, es, es');
    MembersAreEntries(cfg, cv, h, es, |es|, depth);
    MembersAreEntries(cfg, cv, h', es', |es'|, depth);
    var m, m' := MemberTrees(cfg, cv, h, es, |es|, depth), MemberTrees(cfg, cv, h', es', |es'|, depth);
    forall k | k in m ensures k in m' && m'[k] == m[k] {
      var j :| 0 <= j < |es| && k == KStr(KeyName(cfg, cv, es[j].0));
      assert es[j] in es';
      var a :| 0 <= a < |es'| && es'[a] == es[j];
    }
    forall k | k in m' ensures k in m {
      var a :| 0 <= a < |es'| && k == KStr(KeyName(cfg, cv, es'[a].0));
      assert es'[a] in es;
      var j :| 0 <= j < |es| && es[j] == es'[a];
    }
  }

  lemma {:induction false} ScalarSame(cfg: Config, cv: Conv, h: Heap, h': Heap, v: Val, depth: nat)
    requires depth <= cfg.encodeMaxDepth && !v.Table? && Returnable(cfg, cv, h, v, depth)
    ensures Returnable(cfg, cv, h', v, depth) && Meaning(cfg, cv, h', v, depth) == Meaning(cfg, cv, h, v, depth)
  {
    hide NumberReturns;
  }

  /** A value means the same in both heaps, and is promised its round trip in both. */
  lemma {:induction false} MeaningSame(cfg: Config, cv: Conv, h: Heap, h': Heap, v: Val, depth: nat)
    requires depth <= cfg.encodeMaxDepth && Reordered(h, h') && Returnable(cfg, cv, h, v, depth)
    ensures Returnable(cfg, cv, h', v, depth) && Meaning(cfg, cv, h', v, depth) == Meaning(cfg, cv, h, v, depth)
    decreases cfg.encodeMaxDepth - depth, 1
  {
    hide Returnable, Meaning, ChildrenReturn, Shuffled, ShapeOf, UniqueKeys;
    match v
    case Table(ref) =>
      var es, es' := Entries(h, ref), Entries(h', ref);
      TableUnfolds(cfg, cv, h, ref, depth);
      TableUnfolds(cfg, cv, h', ref, depth);
      assert Shuffled(es, es');
      TableIsUnique(h, ref);
      ShapeSame(cfg, es, es');
      match ShapeOf(cfg, es) {
        case ArrayOf(n) => ItemsSame(cfg, cv, h, h', es, es', n, depth + 1);
        case ObjectShape => MembersSame(cfg, cv, h, h', es, es', depth + 1);
      }
    case _ => ScalarSame(cfg, cv, h, h', v, depth);
  }

  lemma {:induction false} TableIsUnique(h: Heap, ref: nat)
    requires UniqueKeys(h)
    ensures Unique(Entries(h, ref))
  {
  }

  lemma {:induction false} ItemsSame(cfg: Config, cv: Conv, h: Heap, h': Heap, es: seq<(Key, Val)>,
                                     es': seq<(Key, Val)>, n: nat, depth: nat)
    requires depth <= cfg.encodeMaxDepth && Reordered(h, h') && Unique(es) && Shuffled(es, es')
    requires ShapeOf(cfg, es) == ArrayOf(n) == ShapeOf(cfg, es') && ChildrenReturn(cfg, cv, h, es, depth)
    ensures ChildrenReturn(cfg, cv, h', es', depth)
    ensures ItemTrees(cfg, cv, h', es', n, depth) == ItemTrees(cfg, cv, h, es, n, depth)
    decreases cfg.encodeMaxDepth - depth, 2
  {
    hide Returnable, Meaning, Reordered, Unique, Shuffled, ShapeOf, RawGet, ItemTrees;
    forall i | 1 <= i <= n
      ensures Returnable(cfg, cv, h', RawGet(es', i), depth)
      ensures Meaning(cfg, cv, h', RawGet(es, i), depth) == Meaning(cfg, cv, h, RawGet(es, i), depth)
    {
      RawGetSame(es, es', i);
      MeaningSame(cfg, cv, h, h', RawGet(es, i), depth);
    }
    ItemTreesSame(cfg, cv, h, h', es, es', n, depth);
  }

  lemma {:induction false} MembersSame(cfg: Config, cv: Conv, h: Heap, h': Heap, es: seq<(Key, Val)>,
                                       es': seq<(Key, Val)>, depth: nat)
    requires depth <= cfg.encodeMaxDepth && Reordered(h, h') && Shuffled(es, es')
    requires ShapeOf(cfg, es) == ObjectShape == ShapeOf(cfg, es') && ChildrenReturn(cfg, cv, h, es, depth)
    ensures ChildrenReturn(cfg, cv, h', es', depth)
    ensures MemberTrees(cfg, cv, h', es', |es'|, depth) == MemberTrees(cfg, cv, h, es, |es|, depth)
    decreases cfg.encodeMaxDepth - depth, 2
  {
    hide Returnable, Meaning, Reordered, Shuffled, ShapeOf, MemberTrees, Keyed;
    ShuffledMembers(es, es');
    KeyedSame(cfg, cv, es, es');
    forall j | 0 <= j < |es|
      ensures Returnable(cfg, cv, h', es[j].1, depth)
      ensures Meaning(cfg, cv, h', es[j].1, depth) == Meaning(cfg, cv, h, es[j].1, depth)
    {
      MeaningSame(cfg, cv, h, h', es[j].1, depth);
    }
    forall a | 0 <= a < |es'| ensures Returnable(cfg, cv, h', es'[a].1, depth) {
      assert es'[a] in es;
      var j :| 0 <= j < |es| && es[j] == es'[a];
    }
    MemberTreesSame(cfg, cv, h, h', es, es', depth);
  }

  /**
   However the entries of the tables are ordered, encoding succeeds and decoding the text gives the
   same value.
   */
  lemma {:induction false} OrderLeavesNoTrace(cfg: Config, cv: Conv, h: Heap, h': Heap, v: Val)
    requires ScanOk(cv) && Reordered(h, h') && Returnable(cfg, cv, h, v, 0)
    ensures var e, e' := Encode(cfg, cv, h, v, 0), Encode(cfg, cv, h', v, 0);
            e.Text? && e'.Text? && Decode(cfg, cv, e'.t) == Decode(cfg, cv, e.t)
  {
    hide Encode, Decode, Meaning, Returnable, Reordered;
    MeaningSame(cfg, cv, h, h', v, 0);
    RoundTrip(cfg, cv, h, v);
    RoundTrip(cfg, cv, h', v);
  }
}
