/** The title index: a character trie over lower-cased book titles
    (bookrecommendation.py, classes TrieNode and Trie).

    A node holds a map from a character to the child reached along that
    character and a flag that marks the end of an indexed title. The titles a
    trie holds are its terminal paths: the strings spelled out from the root
    to a node whose flag is set.
 */
module TitleTrie {
  import opened Chars
  import opened Seqs
  import opened Wrappers
  import opened CharOrder

  datatype Trie = Node(children: map<char, Trie>, isEnd: bool)

  /** A fresh node: no children and not the end of a title. */
  const Empty: Trie := Node(map[], false)

  /** w is a terminal path of t, that is, t holds the title w. */
  predicate Has(t: Trie, w: string)
    decreases |w|
  {
    if w == [] then t.isEnd
    else w[0] in t.children && Has(t.children[w[0]], w[1..])
  }

  /** Some title that t holds begins with q. */
  ghost predicate HasExtension(t: Trie, q: string)
  {
    exists w :: Has(t, w) && IsPrefix(q, w)
  }

  /** Every node below the root lies on the path of some held title: it is the
      end of a title or it has a child, and so are all nodes below it. */
  predicate Pruned(t: Trie)
  {
    forall c :: c in t.children ==>
      (t.children[c].isEnd || t.children[c].children != map[]) && Pruned(t.children[c])
  }

  // ---------------------------------------------------------------------
  // Insertion
  // ---------------------------------------------------------------------

  /** Walk the (already folded) word w from t, creating any missing child,
      and mark the node reached as the end of a title. The title set grows by
      exactly w. */
  function InsertPath(t: Trie, w: string): (r: Trie)
    ensures forall v :: Has(r, v) <==> Has(t, v) || v == w
    decreases |w|
  {
    if w == [] then Node(t.children, true)
    else
      var child := if w[0] in t.children then t.children[w[0]] else Empty;
      var child' := InsertPath(child, w[1..]);
      var r := Node(t.children[w[0] := child'], t.isEnd);
      assert forall v :: v != [] && v[0] == w[0] ==> (Has(r, v) <==> Has(child', v[1..]));
      assert forall v :: v != [] && v[0] == w[0] ==> (v == w <==> v[1..] == w[1..]);
      r
  }

  /** Index a title: its lower-cased form becomes a held title, nothing else
      is added and nothing is removed. */
  function Insert(t: Trie, title: string): (r: Trie)
    ensures forall v :: Has(r, v) <==> Has(t, v) || v == Lower(title)
  {
    InsertPath(t, Lower(title))
  }

  /** Inserting the same folded word twice builds the very same trie as
      inserting it once: no node is duplicated. */
  lemma {:induction false} InsertPathIdempotent(t: Trie, w: string)
    ensures InsertPath(InsertPath(t, w), w) == InsertPath(t, w)
    decreases |w|
  {
    if w != [] {
      var child := if w[0] in t.children then t.children[w[0]] else Empty;
      InsertPathIdempotent(child, w[1..]);
    }
  }

  /** Inserting a title twice, or a title and then its upper-cased form,
      leaves the same trie as inserting it once. */
  lemma InsertIdempotent(t: Trie, title: string)
    ensures Insert(Insert(t, title), title) == Insert(t, title)
    ensures Insert(Insert(t, title), Upper(title)) == Insert(t, title)
    ensures Insert(t, Upper(title)) == Insert(t, title)
  {
    InsertPathIdempotent(t, Lower(title));
    LowerUpper(title);
  }

  /** The order of two insertions does not matter: the index of a catalog
      depends only on its set of folded titles. */
  lemma {:induction false} InsertPathCommutes(t: Trie, a: string, b: string)
    ensures InsertPath(InsertPath(t, a), b) == InsertPath(InsertPath(t, b), a)
    decreases |a|
  {
    if a != [] && b != [] && a[0] == b[0] {
      var child := if a[0] in t.children then t.children[a[0]] else Empty;
      InsertPathCommutes(child, a[1..], b[1..]);
    }
  }

  /** Insertion keeps a trie free of dead branches. */
  lemma {:induction false} InsertPathPruned(t: Trie, w: string)
    requires Pruned(t)
    ensures Pruned(InsertPath(t, w))
    decreases |w|
  {
    if w != [] {
      var child := if w[0] in t.children then t.children[w[0]] else Empty;
      InsertPathPruned(child, w[1..]);
      var child' := InsertPath(child, w[1..]);
      if w[1..] == [] {
        assert child'.isEnd;
      } else {
        assert w[1] in child'.children;
      }
    }
  }

  /** A node that is the end of a title or has a child holds some title. */
  lemma {:induction false} PrunedHoldsTitle(t: Trie) returns (w: string)
    requires Pruned(t)
    requires t.isEnd || t.children != map[]
    ensures Has(t, w)
    decreases t
  {
    if t.isEnd {
      w := [];
    } else {
      var c :| c in t.children;
      var w' := PrunedHoldsTitle(t.children[c]);
      w := [c] + w';
      assert w[1..] == w';
    }
  }

  // ---------------------------------------------------------------------
  // Search
  // ---------------------------------------------------------------------

  /** Follow the characters of w from t; None as soon as one is missing. The
      node reached holds exactly the continuations s for which w + s is
      held. */
  function Walk(t: Trie, w: string): (r: Option<Trie>)
    ensures r.Some? ==> forall s :: Has(r.value, s) <==> Has(t, w + s)
    decreases |w|
  {
    if w == [] then
      assert forall s :: w + s == s;
      Some(t)
    else if w[0] !in t.children then None
    else
      var r := Walk(t.children[w[0]], w[1..]);
      assert forall s :: Has(t, w + s) <==> Has(t.children[w[0]], w[1..] + s) by {
        forall s
          ensures Has(t, w + s) <==> Has(t.children[w[0]], w[1..] + s)
        {
          assert (w + s)[0] == w[0] && (w + s)[1..] == w[1..] + s;
        }
      }
      r
  }

  /** The node reached by a walk holds exactly the continuations of the walked
      word; a failed walk means no held title continues the word. */
  lemma {:induction false} WalkHolds(t: Trie, w: string, s: string)
    ensures Walk(t, w).Some? ==> (Has(Walk(t, w).value, s) <==> Has(t, w + s))
    ensures Walk(t, w).None? ==> !Has(t, w + s)
    decreases |w|
  {
    if w != [] {
      assert (w + s)[0] == w[0] && (w + s)[1..] == w[1..] + s;
      assert Has(t, w + s) <==> w[0] in t.children && Has(t.children[w[0]], w[1..] + s);
      if w[0] in t.children {
        WalkHolds(t.children[w[0]], w[1..], s);
      }
    } else {
      assert w + s == s;
    }
  }

  /** In a pruned trie a walk along a non-empty word fails exactly when no
      held title begins with that word. */
  lemma WalkFailsIffNoExtension(t: Trie, w: string)
    requires Pruned(t)
    requires w != []
    ensures Walk(t, w).None? <==> !HasExtension(t, w)
  {
    if Walk(t, w).None? {
      forall v | Has(t, v) && IsPrefix(w, v)
        ensures false
      {
        assert v == w + v[|w|..];
        WalkHolds(t, w, v[|w|..]);
      }
    } else {
      var n := WalkPruned(t, w);
      var s := PrunedHoldsTitle(n);
      WalkHolds(t, w, s);
      assert IsPrefix(w, w + s);
    }
  }

  /** A successful walk along a non-empty word in a pruned trie ends at a
      node that is the end of a title or has a child. */
  lemma {:induction false} WalkPruned(t: Trie, w: string) returns (n: Trie)
    requires Pruned(t)
    requires w != []
    requires Walk(t, w).Some?
    ensures n == Walk(t, w).value
    ensures Pruned(n) && (n.isEnd || n.children != map[])
    decreases |w|
  {
    if w[1..] == [] {
      n := t.children[w[0]];
    } else {
      n := WalkPruned(t.children[w[0]], w[1..]);
    }
  }

  /** The strings a collection reports are acc followed by a terminal path. */
  ghost predicate Reported(n: Trie, acc: string, x: string)
  {
    IsPrefix(acc, x) && Has(n, x[|acc|..])
  }

  /** Depth-first collection of every terminal path below n, each reported as
      acc followed by the characters on the path, children in ascending
      character order. */
  function Collect(n: Trie, acc: string): (r: seq<string>)
    ensures forall x :: x in r <==> Reported(n, acc, x)
    decreases n, 1, 0
  {
    var keys := SortedKeys(n.children.Keys);
    var head := if n.isEnd then [acc] else [];
    var rest := CollectChildren(n, acc, keys);
    assert forall x :: x in head + rest <==> Reported(n, acc, x) by {
      forall x
        ensures x in head + rest <==> Reported(n, acc, x)
      {
        assert x in rest <==> ChildReported(n, acc, keys, x);
        if IsPrefix(acc, x) && |x| > |acc| {
          var y := x[|acc|..];
          assert y[0] == x[|acc|] && y[1..] == x[|acc| + 1..];
        }
        if IsPrefix(acc, x) && |x| == |acc| {
          assert x == acc;
        }
      }
    }
    head + rest
  }

  /** x is acc followed by one of the keys k and a terminal path below
      child k. */
  ghost predicate ChildReported(n: Trie, acc: string, keys: seq<char>, x: string)
  {
    && IsPrefix(acc, x) && |x| > |acc|
    && x[|acc|] in keys && x[|acc|] in n.children
    && Has(n.children[x[|acc|]], x[|acc| + 1..])
  }

  /** The collections below the children of n named by keys, in key order. */
  function CollectChildren(n: Trie, acc: string, keys: seq<char>): (r: seq<string>)
    requires forall i :: 0 <= i < |keys| ==> keys[i] in n.children
    ensures forall x :: x in r <==> ChildReported(n, acc, keys, x)
    decreases n, 0, |keys|
  {
    if keys == [] then []
    else
      var k := keys[0];
      var acc' := acc + [k];
      var first := Collect(n.children[k], acc');
      var rest := CollectChildren(n, acc, keys[1..]);
      assert forall x :: x in first + rest <==> ChildReported(n, acc, keys, x) by {
        forall x
          ensures x in first + rest <==> ChildReported(n, acc, keys, x)
        {
          assert x in first <==> Reported(n.children[k], acc', x);
          assert x in rest <==> ChildReported(n, acc, keys[1..], x);
          if IsPrefix(acc', x) {
            assert x[..|acc|] == x[..|acc'|][..|acc|];
            assert x[|acc|] == x[..|acc'|][|acc|];
            assert x[|acc'|..] == x[|acc| + 1..];
          }
          if IsPrefix(acc, x) && |x| > |acc| && x[|acc|] == k {
            assert x[..|acc'|] == x[..|acc|] + [x[|acc|]];
          }
        }
      }
      first + rest
  }

  /** A collection never reports the same string twice. */
  lemma {:induction false} CollectDistinct(n: Trie, acc: string)
    ensures Distinct(Collect(n, acc))
    decreases n, 1, 0
  {
    var keys := SortedKeys(n.children.Keys);
    CollectChildrenDistinct(n, acc, keys);
    var head := if n.isEnd then [acc] else [];
    forall x | x in head
      ensures x !in CollectChildren(n, acc, keys)
    {
      assert x == acc;
      assert x in CollectChildren(n, acc, keys) ==> ChildReported(n, acc, keys, x);
    }
    DistinctAppend(head, CollectChildren(n, acc, keys));
  }

  lemma {:induction false} CollectChildrenDistinct(n: Trie, acc: string, keys: seq<char>)
    requires forall i :: 0 <= i < |keys| ==> keys[i] in n.children
    requires forall i, j :: 0 <= i < j < |keys| ==> keys[i] < keys[j]
    ensures Distinct(CollectChildren(n, acc, keys))
    decreases n, 0, |keys|
  {
    if keys != [] {
      var k := keys[0];
      var first := Collect(n.children[k], acc + [k]);
      var rest := CollectChildren(n, acc, keys[1..]);
      CollectDistinct(n.children[k], acc + [k]);
      CollectChildrenDistinct(n, acc, keys[1..]);
      forall x | x in first
        ensures x !in rest
      {
        assert x[..|acc| + 1][|acc|] == k;
        assert x[|acc|] == k;
        assert k !in keys[1..];
      }
      DistinctAppend(first, rest);
    }
  }

  /** Search by prefix: fold the prefix, walk it, and on success report every
      title held below the node reached as the prefix, exactly as the caller
      wrote it, followed by the rest of the folded title. A string is reported
      exactly when it is the prefix followed by a continuation s such that the
      folded prefix followed by s is a held title, and none is reported
      twice. */
  function Search(t: Trie, prefix: string): (r: seq<string>)
    ensures forall x :: x in r <==> IsPrefix(prefix, x) && Has(t, Lower(prefix) + x[|prefix|..])
    ensures Distinct(r)
  {
    var q := Lower(prefix);
    var r := match Walk(t, q)
             case None => []
             case Some(n) => Collect(n, prefix);
    assert forall x :: x in r <==> IsPrefix(prefix, x) && Has(t, q + x[|prefix|..]) by {
      forall x
        ensures x in r <==> IsPrefix(prefix, x) && Has(t, q + x[|prefix|..])
      {
        if |prefix| <= |x| {
          WalkHolds(t, q, x[|prefix|..]);
        }
      }
    }
    assert Distinct(r) by {
      if Walk(t, q).Some? {
        CollectDistinct(Walk(t, q).value, prefix);
      }
    }
    r
  }

  /** A held title that begins with the folded prefix is found: it is
      reported as the prefix followed by the rest of the title, a string that
      folds to the title. When the prefix is already lower case, the title
      itself is reported. */
  lemma SearchFinds(t: Trie, prefix: string, w: string)
    requires Has(t, w)
    requires IsLower(w)
    requires IsPrefix(Lower(prefix), w)
    ensures prefix + w[|prefix|..] in Search(t, prefix)
    ensures Lower(prefix + w[|prefix|..]) == w
    ensures IsLower(prefix) ==> w in Search(t, prefix)
  {
    var x := prefix + w[|prefix|..];
    assert x[..|prefix|] == prefix && x[|prefix|..] == w[|prefix|..];
    assert Lower(prefix) + x[|prefix|..] == w;
    LowerAppend(prefix, w[|prefix|..]);
    assert Lower(w[|prefix|..]) == w[|prefix|..];
    if IsLower(prefix) {
      LowerOfLowerIsSelf(prefix);
    }
  }

  /** Every reported string names a held title: it folds to one, given that
      every held title is lower case. */
  lemma SearchSound(t: Trie, prefix: string, x: string)
    requires x in Search(t, prefix)
    requires forall w :: Has(t, w) ==> IsLower(w)
    ensures IsPrefix(prefix, x)
    ensures Has(t, Lower(x))
    ensures IsPrefix(Lower(prefix), Lower(x))
  {
    var s := x[|prefix|..];
    assert x == prefix + s;
    LowerAppend(prefix, s);
    var w := Lower(prefix) + s;
    assert s == w[|prefix|..];
    LowerSlice(w, |prefix|);
    LowerOfLowerIsSelf(w);
    assert Lower(x) == w;
  }

  /** A search comes back empty exactly when no held title begins with the
      folded prefix. */
  lemma SearchEmptyIff(t: Trie, prefix: string)
    ensures Search(t, prefix) == [] <==> !HasExtension(t, Lower(prefix))
  {
    var q := Lower(prefix);
    if Search(t, prefix) != [] {
      var x := Search(t, prefix)[0];
      assert x in Search(t, prefix);
      var w := q + x[|prefix|..];
      assert IsPrefix(q, w);
    }
    if HasExtension(t, q) {
      var w :| Has(t, w) && IsPrefix(q, w);
      var x := prefix + w[|q|..];
      assert x[..|prefix|] == prefix && x[|prefix|..] == w[|q|..];
      assert q + w[|q|..] == w;
      assert x in Search(t, prefix);
    }
  }

  /** Searching with the empty prefix reports every held title, and only
      those. */
  lemma SearchAll(t: Trie, x: string)
    ensures x in Search(t, "") <==> Has(t, x)
  {
    assert Lower("") + x[0..] == x;
  }
}
