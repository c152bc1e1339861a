/** A deterministic order on the children of a trie node.

    The index visits the children of a node in ascending character order, so
    the order in which a search reports its hits is a function of the trie
    alone.
 */
module CharOrder {

  /** Every non-empty finite set of characters has a least element. */
  lemma MinExists(s: set<char>)
    requires s != {}
    ensures exists m :: m in s && forall c :: c in s ==> m <= c
  {
    var x :| x in s;
    if s != {x} {
      MinExists(s - {x});
      var m' :| m' in s - {x} && forall c :: c in s - {x} ==> m' <= c;
      var m := if x < m' then x else m';
      forall c | c in s
        ensures m <= c
      {
        if c != x {
          assert c in s - {x};
          assert m' as int <= c as int;
        }
      }
      assert m in s;
    } else {
      assert forall c :: c in s ==> x <= c;
    }
  }

  /** The least character of a non-empty set. */
  function MinChar(s: set<char>): (m: char)
    requires s != {}
    ensures m in s
    ensures forall c :: c in s ==> m <= c
  {
    MinExists(s);
    var m :| m in s && forall c :: c in s ==> m <= c;
    m
  }

  /** The characters of a set, in strictly ascending order. */
  function SortedKeys(s: set<char>): (r: seq<char>)
    ensures forall c :: c in r <==> c in s
    ensures |r| == |s|
    ensures forall i, j :: 0 <= i < j < |r| ==> r[i] < r[j]
    decreases s
  {
    if s == {} then []
    else
      var m := MinChar(s);
      var rest := SortedKeys(s - {m});
      assert forall j :: 0 <= j < |rest| ==> m < rest[j] by {
        forall j | 0 <= j < |rest|
          ensures m < rest[j]
        {
          assert rest[j] in s - {m};
        }
      }
      [m] + rest
  }
}
