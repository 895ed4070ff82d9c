/** Dividing a collection into non-empty parts without overlap, and dividing a part further. */
module Partitions {
  /** Every member of the whole is in exactly one part, and no part is empty. */
  ghost predicate Partition<A(!new)>(whole: iset<A>, parts: seq<iset<A>>) {
    && (forall i :: 0 <= i < |parts| ==> parts[i] != iset{})
    && (forall a :: a in whole <==> Covered(parts, a))
    && Exclusive(parts)
  }

  ghost predicate Covered<A(!new)>(parts: seq<iset<A>>, a: A) {
    exists i :: 0 <= i < |parts| && a in parts[i]
  }

  ghost predicate Exclusive<A(!new)>(parts: seq<iset<A>>) {
    forall i, j :: 0 <= i < j < |parts| ==> parts[i] !! parts[j]
  }

  /** Part i is replaced by the first piece, and the other pieces are put at the end. */
  ghost function Replaced<A(!new)>(parts: seq<iset<A>>, i: nat, pieces: seq<iset<A>>): (r: seq<iset<A>>)
    requires i < |parts| && 0 < |pieces|
  {
    parts[i := pieces[0]] + pieces[1..]
  }

  /** Dividing one part gives a partition again. */
  lemma {:induction false} Divide<A(!new)>(whole: iset<A>, parts: seq<iset<A>>, i: nat, pieces: seq<iset<A>>)
    requires Partition(whole, parts) && i < |parts| && 0 < |pieces| && Partition(parts[i], pieces)
    ensures Partition(whole, Replaced(parts, i, pieces))
  {
    var after := Replaced(parts, i, pieces);
    forall a ensures a in whole <==> Covered(after, a) {
      DivideCovers(parts, i, pieces, a);
    }
    forall j, k | 0 <= j < k < |after| ensures after[j] !! after[k] {
      forall a | a in after[j] ensures a !in after[k] {
        DivideExclusive(parts, i, pieces, a, j, k);
      }
    }
  }

  /** Dividing only some of a part gives a partition of everything but the rest of it. */
  lemma {:induction false} DivideSome<A(!new)>(whole: iset<A>, parts: seq<iset<A>>, i: nat, pieces: seq<iset<A>>,
                                               some: iset<A>)
    requires Partition(whole, parts) && i < |parts| && 0 < |pieces| && Partition(some, pieces) && some <= parts[i]
    ensures Partition(whole - (parts[i] - some), Replaced(parts, i, pieces))
  {
    var fewer := parts[i := some];
    assert pieces[0] != iset{};
    var a :| a in pieces[0];
    assert Covered(pieces, a);
    Shrink(whole, parts, i, some);
    Divide(whole - (parts[i] - some), fewer, i, pieces);
    assert Replaced(fewer, i, pieces) == Replaced(parts, i, pieces);
  }

  lemma {:induction false} Shrink<A(!new)>(whole: iset<A>, parts: seq<iset<A>>, i: nat, some: iset<A>)
    requires Partition(whole, parts) && i < |parts| && some != iset{} && some <= parts[i]
    ensures Partition(whole - (parts[i] - some), parts[i := some])
  {
    var fewer := parts[i := some];
    forall a ensures a in whole - (parts[i] - some) <==> Covered(fewer, a) {
      if a in whole - (parts[i] - some) {
        var k :| 0 <= k < |parts| && a in parts[k];
        assert a in fewer[k];
      }
      if Covered(fewer, a) {
        var k :| 0 <= k < |fewer| && a in fewer[k];
        assert a in parts[k];
        assert k == i || parts[k] !! parts[i];
      }
    }
    forall j, k | 0 <= j < k < |fewer| ensures fewer[j] !! fewer[k] {
      assert parts[j] !! parts[k];
    }
  }

  lemma {:induction false} DivideCovers<A(!new)>(parts: seq<iset<A>>, i: nat, pieces: seq<iset<A>>, a: A)
    requires i < |parts| && 0 < |pieces| && forall a :: a in parts[i] <==> Covered(pieces, a)
    ensures Covered(Replaced(parts, i, pieces), a) <==> Covered(parts, a)
  {
    var after := Replaced(parts, i, pieces);
    if Covered(after, a) {
      var k :| 0 <= k < |after| && a in after[k];
      if k == i || |parts| <= k {
        assert after[k] == pieces[if k == i then 0 else k - |parts| + 1];
        assert a in parts[i];
      } else {
        assert after[k] == parts[k];
      }
    }
    if Covered(parts, a) {
      var k :| 0 <= k < |parts| && a in parts[k];
      if k == i {
        var n :| 0 <= n < |pieces| && a in pieces[n];
        assert after[if n == 0 then i else |parts| + n - 1] == pieces[n];
      } else {
        assert after[k] == parts[k];
      }
    }
  }

  lemma {:induction false} DivideExclusive<A(!new)>(parts: seq<iset<A>>, i: nat, pieces: seq<iset<A>>, a: A, j: nat,
                                                    k: nat)
    requires Exclusive(parts) && i < |parts| && 0 < |pieces| && Partition(parts[i], pieces)
    requires j < k < |Replaced(parts, i, pieces)| && a in Replaced(parts, i, pieces)[j]
    ensures a !in Replaced(parts, i, pieces)[k]
  {
    var after := Replaced(parts, i, pieces);
    var x, y := Origin(parts, i, j), Origin(parts, i, k);
    Came(parts, i, pieces, a, j);
    if x == y {
      assert after[k] == pieces[k - |parts| + 1];
      assert after[j] == pieces[if j == i then 0 else j - |parts| + 1];
    } else {
      assert if x < y then parts[x] !! parts[y] else parts[y] !! parts[x];
      if a in after[k] {
        Came(parts, i, pieces, a, k);
      }
    }
  }

  /** Where part k came from. */
  ghost function Origin<A(!new)>(parts: seq<iset<A>>, i: nat, k: nat): (o: nat) {
    if k < |parts| then k else i
  }

  lemma {:induction false} Came<A(!new)>(parts: seq<iset<A>>, i: nat, pieces: seq<iset<A>>, a: A, k: nat)
    requires i < |parts| && 0 < |pieces| && forall a :: a in parts[i] <==> Covered(pieces, a)
    requires k < |Replaced(parts, i, pieces)| && a in Replaced(parts, i, pieces)[k]
    ensures a in parts[Origin(parts, i, k)]
  {
    var after := Replaced(parts, i, pieces);
    if k == i || |parts| <= k {
      assert after[k] == pieces[if k == i then 0 else k - |parts| + 1];
    } else {
      assert after[k] == parts[k];
    }
  }

  lemma {:induction false} TwoParts<A(!new)>(whole: iset<A>, x: iset<A>, y: iset<A>)
    requires x != iset{} && y != iset{} && x !! y && whole == x + y
    ensures Partition(whole, [x, y]) && Partition(whole, [y, x])
  {
    forall a ensures a in whole <==> Covered([x, y], a)
             ensures a in whole <==> Covered([y, x], a) {
      if a in whole {
        assert a in [x, y][if a in x then 0 else 1];
        assert a in [y, x][if a in x then 1 else 0];
      }
    }
  }
}
