/** Facts about the traversals' `visited` flags, taken as a sequence of
    booleans (true stands for the C flag value 1), and about visit orders
    without repetitions. */
module Marks {

  /** Every flag cleared, as `int visited[MAX_PAGES] = {0}` leaves them. */
  function AllUnvisited(n: nat): (vis: seq<bool>)
    ensures |vis| == n && forall i :: 0 <= i < n ==> !vis[i]
  {
    seq(n, _ => false)
  }

  /** How many pages are still unvisited: the measure both traversals use up. */
  function CountUnvisited(vis: seq<bool>): (c: nat)
    ensures c <= |vis|
    decreases |vis|
  {
    if vis == [] then 0 else (if vis[0] then 0 else 1) + CountUnvisited(vis[1..])
  }

  /** No page occurs twice. */
  predicate NoDup(s: seq<int>) {
    forall i, j :: 0 <= i < j < |s| ==> s[i] != s[j]
  }

  lemma {:induction false} CountAllUnvisited(n: nat)
    ensures CountUnvisited(AllUnvisited(n)) == n
    decreases n
  {
    if n > 0 {
      assert AllUnvisited(n)[1..] == AllUnvisited(n - 1);
      CountAllUnvisited(n - 1);
    }
  }

  /** Setting one flag removes that page from the count exactly when it was clear. */
  lemma {:induction false} CountMarkOne(vis: seq<bool>, i: int)
    requires 0 <= i < |vis|
    ensures CountUnvisited(vis[i := true]) == CountUnvisited(vis) - (if vis[i] then 0 else 1)
    decreases |vis|
  {
    if i == 0 {
      assert vis[i := true][1..] == vis[1..];
    } else {
      assert vis[i := true][1..] == vis[1..][i - 1 := true];
      CountMarkOne(vis[1..], i - 1);
    }
  }

  /** Joining two repetition-free orders that share no page gives a repetition-free order. */
  lemma NoDupAppend(a: seq<int>, b: seq<int>)
    requires NoDup(a) && NoDup(b)
    requires forall x :: x in b ==> x !in a
    ensures NoDup(a + b)
  {
    forall i, j | 0 <= i < j < |a + b|
      ensures (a + b)[i] != (a + b)[j]
    {
      if i < |a| && |a| <= j {
        assert (a + b)[j] == b[j - |a|] && b[j - |a|] in b;
      }
    }
  }
}
