/** What hash tables hold. */
module HashItems {
  type Item(==,!new)

  type Hash = Item -> nat

  ghost predicate Equivalence(eq: (Item, Item) -> bool)
  {
    && (forall x :: eq(x, x))
    && (forall x, y :: eq(x, y) ==> eq(y, x))
    && (forall x, y, z :: eq(x, y) && eq(y, z) ==> eq(x, z))
  }

  /** The nodes of a bucket in order. */
  type Chain = seq<Item>

  /** Equal nodes stand next to each other. */
  ghost predicate Clustered(c: Chain, eq: (Item, Item) -> bool)
  {
    forall i, j, k :: 0 <= i < j < k < |c| && eq(c[i], c[k]) ==> eq(c[i], c[j])
  }

  /** No node of `c` is equal to one of `d`. */
  ghost predicate Unequal(c: Chain, d: Chain, eq: (Item, Item) -> bool)
  {
    forall i, j :: 0 <= i < |c| && 0 <= j < |d| ==> !eq(c[i], d[j])
  }

  lemma ClusteredJoin(c: Chain, d: Chain, eq: (Item, Item) -> bool)
    requires Clustered(c, eq) && Clustered(d, eq) && Unequal(c, d, eq)
    ensures Clustered(c + d, eq)
  {
    var s := c + d;
    forall i, j, k | 0 <= i < j < k < |s| && eq(s[i], s[k]) ensures eq(s[i], s[j]) {
      if k < |c| {
        assert s[i] == c[i] && s[j] == c[j] && s[k] == c[k];
      } else if i >= |c| {
        assert s[i] == d[i - |c|] && s[j] == d[j - |c|] && s[k] == d[k - |c|];
      }
    }
  }
}
