/**
 * Quick-open results grouped by service and then by directory, and the two
 * helpers over them: pruning the empty groups and flattening into one list.
 *
 * A JavaScript object used as a dictionary is an association list here: its
 * keys are distinct and `for...in` visits them in insertion order, and
 * assigning to a property replaces the value of a key already present or
 * appends a new key at the end.
 */
module SearchResultHelpers {

  // ----- Objects as association lists -----

  /** The keys in iteration order. */
  function Keys<V>(m: seq<(string, V)>): (r: seq<string>)
    ensures |r| == |m| && forall i :: 0 <= i < |m| ==> r[i] == m[i].0
  {
    seq(|m|, i requires 0 <= i < |m| => m[i].0)
  }

  /** No key appears twice, as in any object. */
  predicate DistinctKeys<V>(m: seq<(string, V)>)
  {
    forall i, j :: 0 <= i < j < |m| ==> m[i].0 != m[j].0
  }

  /** `m[k] = v`: replaces the value of `k` where it already is, or appends `k` at the end. */
  function Assign<V>(m: seq<(string, V)>, k: string, v: V): (r: seq<(string, V)>)
    ensures (k, v) in r
    ensures |r| == if k in Keys(m) then |m| else |m| + 1
    ensures forall i :: 0 <= i < |m| && m[i].0 != k ==> r[i] == m[i]
    ensures k !in Keys(m) ==> r[|m|] == (k, v)
    decreases |m|
  {
    if m == [] then [(k, v)]
    else if m[0].0 == k then [(k, v)] + m[1..]
    else [m[0]] + Assign(m[1..], k, v)
  }

  /** Assigning to a key the object does not have yet appends it. */
  lemma {:induction false} AssignFresh<V>(m: seq<(string, V)>, k: string, v: V)
    requires k !in Keys(m)
    ensures Assign(m, k, v) == m + [(k, v)]
    decreases |m|
  {
    if m != [] {
      assert m[0].0 == Keys(m)[0];
      assert k !in Keys(m[1..]) by {
        forall i | 0 <= i < |m| - 1 ensures Keys(m[1..])[i] == Keys(m)[i + 1] { }
      }
      AssignFresh(m[1..], k, v);
      assert m == [m[0]] + m[1..];
    }
  }

  /** `b` keeps some of the elements of `a`, in their order. */
  predicate IsSubsequence<X(==)>(a: seq<X>, b: seq<X>)
    decreases |b|
  {
    if a == [] then true
    else if b == [] then false
    else
      (a[|a| - 1] == b[|b| - 1] && IsSubsequence(a[..|a| - 1], b[..|b| - 1]))
      || IsSubsequence(a, b[..|b| - 1])
  }

  /** What a subsequence holds, its source holds, and distinct elements stay distinct. */
  lemma {:induction false} SubsequenceKeeps<X>(a: seq<X>, b: seq<X>)
    requires IsSubsequence(a, b)
    ensures forall x :: x in a ==> x in b
    ensures (forall i, j :: 0 <= i < j < |b| ==> b[i] != b[j]) ==> forall i, j :: 0 <= i < j < |a| ==> a[i] != a[j]
    decreases |b|
  {
    if a != [] {
      var a', b' := a[..|a| - 1], b[..|b| - 1];
      if a[|a| - 1] == b[|b| - 1] && IsSubsequence(a', b') {
        SubsequenceKeeps(a', b');
        assert a == a' + [a[|a| - 1]];
        if forall i, j :: 0 <= i < j < |b| ==> b[i] != b[j] {
          forall i | 0 <= i < |a'| ensures a'[i] != a[|a| - 1] {
            assert a'[i] in a';
            var j :| 0 <= j < |b'| && b'[j] == a'[i];
            assert b[j] == a'[i];
          }
        }
      } else {
        SubsequenceKeeps(a, b');
      }
    }
  }

  // ----- Grouped results -----

  /** `{results: [...]}` for one directory. */
  datatype DirectoryResults<T> = DirectoryResults(results: seq<T>)

  /** Directory name to its results. */
  type Directories<T> = seq<(string, DirectoryResults<T>)>

  /** `{results: {...}}` for one service: its directories. */
  datatype ServiceResults<T> = ServiceResults(results: Directories<T>)

  /** Service name to its directories. */
  type GroupedResults<T> = seq<(string, ServiceResults<T>)>

  /** Every object in the tree has distinct keys. */
  predicate WellFormed<T>(g: GroupedResults<T>)
  {
    DistinctKeys(g) && forall i :: 0 <= i < |g| ==> DistinctKeys(g[i].1.results)
  }

  /** The directories whose results are not empty, in their order. */
  function NonEmptyDirectories<T>(dirs: Directories<T>): Directories<T>
    decreases |dirs|
  {
    if dirs == [] then []
    else
      var last := dirs[|dirs| - 1];
      NonEmptyDirectories(dirs[..|dirs| - 1]) + if |last.1.results| != 0 then [last] else []
  }

  /** The services with a non-empty directory, each holding only its non-empty directories. */
  function FilterSpec<T>(g: GroupedResults<T>): GroupedResults<T>
    decreases |g|
  {
    if g == [] then []
    else
      var (name, service) := g[|g| - 1];
      var kept := NonEmptyDirectories(service.results);
      FilterSpec(g[..|g| - 1]) + if |kept| != 0 then [(name, ServiceResults(kept))] else []
  }

  /** The results of the directories, in order, one after the other. */
  function FlattenDirectories<T>(dirs: Directories<T>): seq<T>
    decreases |dirs|
  {
    if dirs == [] then [] else FlattenDirectories(dirs[..|dirs| - 1]) + dirs[|dirs| - 1].1.results
  }

  /** The results of every directory of every service, services outer and directories inner. */
  function FlattenSpec<T>(g: GroupedResults<T>): seq<T>
    decreases |g|
  {
    if g == [] then [] else FlattenSpec(g[..|g| - 1]) + FlattenDirectories(g[|g| - 1].1.results)
  }

  /** `Array.prototype.concat.apply([], items)`: the arrays joined end to end. */
  function Concat<T>(items: seq<seq<T>>): seq<T>
    decreases |items|
  {
    if items == [] then [] else Concat(items[..|items| - 1]) + items[|items| - 1]
  }

  /** Joining one more array appends its elements. */
  lemma ConcatAppend<T>(items: seq<seq<T>>, last: seq<T>)
    ensures Concat(items + [last]) == Concat(items) + last
  {
    assert (items + [last])[..|items|] == items;
  }

  /** The joined array holds every element of every array, and nothing else. */
  lemma {:induction false} ConcatElements<T>(items: seq<seq<T>>)
    ensures forall i, j :: 0 <= i < |items| && 0 <= j < |items[i]| ==> items[i][j] in Concat(items)
    ensures forall k :: 0 <= k < |Concat(items)| ==>
      exists i :: 0 <= i < |items| && Concat(items)[k] in items[i]
    decreases |items|
  {
    if items != [] {
      var init, last := items[..|items| - 1], items[|items| - 1];
      ConcatElements(init);
      assert Concat(items) == Concat(init) + last;
      forall i, j | 0 <= i < |items| && 0 <= j < |items[i]|
        ensures items[i][j] in Concat(items)
      {
        if i < |init| { assert items[i] == init[i]; }
        else { assert items[i][j] == Concat(items)[|Concat(init)| + j]; }
      }
      forall k | 0 <= k < |Concat(items)|
        ensures exists i :: 0 <= i < |items| && Concat(items)[k] in items[i]
      {
        if k < |Concat(init)| {
          assert Concat(items)[k] == Concat(init)[k];
          var i :| 0 <= i < |init| && Concat(init)[k] in init[i];
          assert items[i] == init[i];
        } else {
          assert Concat(items)[k] == last[k - |Concat(init)|];
          assert Concat(items)[k] in items[|items| - 1];
        }
      }
    } else {
      assert Concat(items) == [];
    }
  }

  // ----- The helpers -----

  /** `filterEmptyResults`: drops the empty directories, then the services left with none. */
  method FilterEmptyResults<T>(resultsGroupedByService: GroupedResults<T>) returns (filteredTree: GroupedResults<T>)
    requires WellFormed(resultsGroupedByService)
    ensures filteredTree == FilterSpec(resultsGroupedByService)
  {
    var g := resultsGroupedByService;
    filteredTree := [];
    var i := 0;
    while i < |g|
      invariant 0 <= i <= |g|
      invariant filteredTree == FilterSpec(g[..i])
    {
      var (serviceName, service) := g[i];
      var directories := service.results;
      var nonEmptyDirectories: Directories<T> := [];
      var j := 0;
      while j < |directories|
        invariant 0 <= j <= |directories|
        invariant nonEmptyDirectories == NonEmptyDirectories(directories[..j])
      {
        var (dirName, directory) := directories[j];
        DirectoryStep(directories, j);
        if |directory.results| != 0 {
          nonEmptyDirectories := Assign(nonEmptyDirectories, dirName, directory);
        }
        j := j + 1;
      }
      assert directories[..j] == directories;
      ServiceStep(g, i);
      if |nonEmptyDirectories| != 0 {
        filteredTree := Assign(filteredTree, serviceName, ServiceResults(nonEmptyDirectories));
      }
      i := i + 1;
    }
    assert g[..i] == g;
  }

  /** `flattenResults`: pushes every directory's results, then joins them. */
  method FlattenResults<T>(resultsGroupedByService: GroupedResults<T>) returns (flat: seq<T>)
    ensures flat == FlattenSpec(resultsGroupedByService)
  {
    var g := resultsGroupedByService;
    var items: seq<seq<T>> := [];
    var i := 0;
    while i < |g|
      invariant 0 <= i <= |g|
      invariant Concat(items) == FlattenSpec(g[..i])
    {
      var directories := g[i].1.results;
      var j := 0;
      while j < |directories|
        invariant 0 <= j <= |directories|
        invariant Concat(items) == FlattenSpec(g[..i]) + FlattenDirectories(directories[..j])
      {
        assert directories[..j + 1][..j] == directories[..j];
        ConcatAppend(items, directories[j].1.results);
        items := items + [directories[j].1.results];
        j := j + 1;
      }
      assert directories[..j] == directories;
      assert g[..i + 1][..i] == g[..i];
      i := i + 1;
    }
    assert g[..i] == g;
    flat := Concat(items);
  }

  /** A name at index `j` is not among the names before it. */
  lemma DirectoryNameFresh<V>(m: seq<(string, V)>, j: nat)
    requires DistinctKeys(m) && j < |m|
    ensures m[j].0 !in Keys(m[..j])
  {
  }

  /** One pass of the inner loop: assigning a non-empty directory extends the pruned prefix. */
  lemma DirectoryStep<T>(dirs: Directories<T>, j: nat)
    requires DistinctKeys(dirs) && j < |dirs|
    ensures var acc := NonEmptyDirectories(dirs[..j]);
      NonEmptyDirectories(dirs[..j + 1])
      == if |dirs[j].1.results| != 0 then Assign(acc, dirs[j].0, dirs[j].1) else acc
  {
    assert dirs[..j + 1][..j] == dirs[..j];
    NonEmptyDirectoriesKeys(dirs[..j]);
    DirectoryNameFresh(dirs, j);
    AssignFresh(NonEmptyDirectories(dirs[..j]), dirs[j].0, dirs[j].1);
  }

  /** One pass of the outer loop: assigning a service with a kept directory extends the pruned prefix. */
  lemma ServiceStep<T>(g: GroupedResults<T>, i: nat)
    requires DistinctKeys(g) && i < |g|
    ensures var acc := FilterSpec(g[..i]);
      var kept := NonEmptyDirectories(g[i].1.results);
      FilterSpec(g[..i + 1])
      == if |kept| != 0 then Assign(acc, g[i].0, ServiceResults(kept)) else acc
  {
    assert g[..i + 1][..i] == g[..i];
    FilterSpecKeys(g[..i]);
    DirectoryNameFresh(g, i);
    AssignFresh(FilterSpec(g[..i]), g[i].0, ServiceResults(NonEmptyDirectories(g[i].1.results)));
  }

  // ----- Properties of the pruning -----

  /** The keys left by the pruning of directories are among the original keys, in their order. */
  lemma {:induction false} NonEmptyDirectoriesSubsequence<T>(dirs: Directories<T>)
    ensures IsSubsequence(Keys(NonEmptyDirectories(dirs)), Keys(dirs))
    decreases |dirs|
  {
    if dirs != [] {
      var init := dirs[..|dirs| - 1];
      NonEmptyDirectoriesSubsequence(init);
      var kept := NonEmptyDirectories(dirs);
      assert Keys(dirs)[..|dirs| - 1] == Keys(init);
      if |dirs[|dirs| - 1].1.results| != 0 {
        assert Keys(kept)[..|kept| - 1] == Keys(NonEmptyDirectories(init));
      } else {
        assert kept == NonEmptyDirectories(init);
      }
    }
  }

  /** An object whose keys are a subsequence of another's has only keys of the other, and distinct ones if those are. */
  lemma SubsequenceKeys<V, W>(m: seq<(string, V)>, n: seq<(string, W)>)
    requires IsSubsequence(Keys(m), Keys(n))
    ensures forall k :: k in Keys(m) ==> k in Keys(n)
    ensures DistinctKeys(n) ==> DistinctKeys(m)
  {
    SubsequenceKeeps(Keys(m), Keys(n));
    if DistinctKeys(n) {
      forall i, j | 0 <= i < j < |m| ensures m[i].0 != m[j].0 {
        assert Keys(m)[i] == m[i].0 && Keys(m)[j] == m[j].0;
        assert forall a, b :: 0 <= a < b < |n| ==> Keys(n)[a] != Keys(n)[b];
      }
    }
  }

  /** Pruning directories keeps only original keys, and keeps them distinct. */
  lemma NonEmptyDirectoriesKeys<T>(dirs: Directories<T>)
    ensures forall k :: k in Keys(NonEmptyDirectories(dirs)) ==> k in Keys(dirs)
    ensures DistinctKeys(dirs) ==> DistinctKeys(NonEmptyDirectories(dirs))
  {
    NonEmptyDirectoriesSubsequence(dirs);
    SubsequenceKeys(NonEmptyDirectories(dirs), dirs);
  }

  /** A directory is kept, unchanged, exactly when its results are not empty. */
  lemma {:induction false} NonEmptyDirectoriesKept<T>(dirs: Directories<T>, entry: (string, DirectoryResults<T>))
    ensures entry in NonEmptyDirectories(dirs) <==> entry in dirs && |entry.1.results| != 0
    decreases |dirs|
  {
    if dirs != [] {
      NonEmptyDirectoriesKept(dirs[..|dirs| - 1], entry);
      assert dirs == dirs[..|dirs| - 1] + [dirs[|dirs| - 1]];
    }
  }

  /** The keys of the kept services are among the original keys, in their order. */
  lemma {:induction false} FilterSpecSubsequence<T>(g: GroupedResults<T>)
    ensures IsSubsequence(Keys(FilterSpec(g)), Keys(g))
    decreases |g|
  {
    if g != [] {
      var init := g[..|g| - 1];
      FilterSpecSubsequence(init);
      var f := FilterSpec(g);
      assert Keys(g)[..|g| - 1] == Keys(init);
      if |NonEmptyDirectories(g[|g| - 1].1.results)| != 0 {
        assert Keys(f)[..|f| - 1] == Keys(FilterSpec(init));
      } else {
        assert f == FilterSpec(init);
      }
    }
  }

  /** Pruning services keeps only original keys, and keeps them distinct. */
  lemma FilterSpecKeys<T>(g: GroupedResults<T>)
    ensures forall k :: k in Keys(FilterSpec(g)) ==> k in Keys(g)
    ensures DistinctKeys(g) ==> DistinctKeys(FilterSpec(g))
  {
    FilterSpecSubsequence(g);
    SubsequenceKeys(FilterSpec(g), g);
  }

  /** A service is kept exactly when one of its directories is, and then it holds just those. */
  lemma {:induction false} FilterSpecKept<T>(g: GroupedResults<T>, entry: (string, ServiceResults<T>))
    ensures entry in FilterSpec(g) <==>
      exists i :: 0 <= i < |g| && g[i].0 == entry.0 && |NonEmptyDirectories(g[i].1.results)| != 0
        && entry.1 == ServiceResults(NonEmptyDirectories(g[i].1.results))
    decreases |g|
  {
    if g != [] {
      var init := g[..|g| - 1];
      FilterSpecKept(init, entry);
      forall i | 0 <= i < |init| ensures init[i] == g[i] { }
    }
  }

  /** The pruning of directories keeps no empty directory and prunes nothing on a second pass. */
  lemma {:induction false} NonEmptyDirectoriesIdempotent<T>(dirs: Directories<T>)
    ensures NonEmptyDirectories(NonEmptyDirectories(dirs)) == NonEmptyDirectories(dirs)
    decreases |dirs|
  {
    if dirs != [] {
      var init := dirs[..|dirs| - 1];
      NonEmptyDirectoriesIdempotent(init);
      var kept := NonEmptyDirectories(dirs);
      if |dirs[|dirs| - 1].1.results| != 0 {
        assert kept[..|kept| - 1] == NonEmptyDirectories(init);
      } else {
        assert kept == NonEmptyDirectories(init);
      }
    }
  }

  /** Pruning a pruned tree changes nothing. */
  lemma {:induction false} FilterIdempotent<T>(g: GroupedResults<T>)
    ensures FilterSpec(FilterSpec(g)) == FilterSpec(g)
    decreases |g|
  {
    if g != [] {
      var init := g[..|g| - 1];
      FilterIdempotent(init);
      var f := FilterSpec(g);
      var kept := NonEmptyDirectories(g[|g| - 1].1.results);
      if |kept| != 0 {
        NonEmptyDirectoriesIdempotent(g[|g| - 1].1.results);
        assert f[..|f| - 1] == FilterSpec(init);
      } else {
        assert f == FilterSpec(init);
      }
    }
  }

  // ----- Properties of the flattening -----

  /** Pruning the empty directories does not change their flattening. */
  lemma {:induction false} FlattenDirectoriesPrunedSame<T>(dirs: Directories<T>)
    ensures FlattenDirectories(NonEmptyDirectories(dirs)) == FlattenDirectories(dirs)
    decreases |dirs|
  {
    if dirs != [] {
      var init := dirs[..|dirs| - 1];
      FlattenDirectoriesPrunedSame(init);
      var kept := NonEmptyDirectories(dirs);
      if |dirs[|dirs| - 1].1.results| != 0 {
        assert kept[..|kept| - 1] == NonEmptyDirectories(init);
      } else {
        assert kept == NonEmptyDirectories(init);
        assert dirs[|dirs| - 1].1.results == [];
      }
    }
  }

  /** Only empty result lists are pruned, so pruning first does not change the flattening. */
  lemma {:induction false} FlattenFilter<T>(g: GroupedResults<T>)
    ensures FlattenSpec(FilterSpec(g)) == FlattenSpec(g)
    decreases |g|
  {
    if g != [] {
      var init := g[..|g| - 1];
      FlattenFilter(init);
      var f := FilterSpec(g);
      var dirs := g[|g| - 1].1.results;
      FlattenDirectoriesPrunedSame(dirs);
      if |NonEmptyDirectories(dirs)| != 0 {
        assert f[..|f| - 1] == FilterSpec(init);
      } else {
        assert f == FilterSpec(init);
        assert FlattenDirectories(dirs) == [] by {
          EmptyWhenNothingKept(dirs);
        }
      }
    }
  }

  /** A directory list with nothing kept flattens to nothing. */
  lemma {:induction false} EmptyWhenNothingKept<T>(dirs: Directories<T>)
    requires NonEmptyDirectories(dirs) == []
    ensures FlattenDirectories(dirs) == []
    decreases |dirs|
  {
    if dirs != [] {
      EmptyWhenNothingKept(dirs[..|dirs| - 1]);
    }
  }

  /** The number of results in the directories, counted from the front. */
  function DirectoryCount<T>(dirs: Directories<T>): nat
    decreases |dirs|
  {
    if dirs == [] then 0 else |dirs[0].1.results| + DirectoryCount(dirs[1..])
  }

  /** The number of results in the tree, counted from the front. */
  function ResultCount<T>(g: GroupedResults<T>): nat
    decreases |g|
  {
    if g == [] then 0 else DirectoryCount(g[0].1.results) + ResultCount(g[1..])
  }

  /** Counting the directories from the back gives the same number. */
  lemma {:induction false} DirectoryCountLast<T>(dirs: Directories<T>)
    requires dirs != []
    ensures DirectoryCount(dirs) == DirectoryCount(dirs[..|dirs| - 1]) + |dirs[|dirs| - 1].1.results|
    decreases |dirs|
  {
    if |dirs| > 1 {
      DirectoryCountLast(dirs[1..]);
      assert dirs[1..][..|dirs| - 2] == dirs[..|dirs| - 1][1..];
    }
  }

  /** Counting the services from the back gives the same number. */
  lemma {:induction false} ResultCountLast<T>(g: GroupedResults<T>)
    requires g != []
    ensures ResultCount(g) == ResultCount(g[..|g| - 1]) + DirectoryCount(g[|g| - 1].1.results)
    decreases |g|
  {
    if |g| > 1 {
      ResultCountLast(g[1..]);
      assert g[1..][..|g| - 2] == g[..|g| - 1][1..];
    }
  }

  /** The flattening of directories has one item per result. */
  lemma {:induction false} FlattenDirectoriesLength<T>(dirs: Directories<T>)
    ensures |FlattenDirectories(dirs)| == DirectoryCount(dirs)
    decreases |dirs|
  {
    if dirs != [] {
      FlattenDirectoriesLength(dirs[..|dirs| - 1]);
      DirectoryCountLast(dirs);
    }
  }

  /** `flattenResults` returns as many items as there are results in all the directories. */
  lemma {:induction false} FlattenLength<T>(g: GroupedResults<T>)
    ensures |FlattenSpec(g)| == ResultCount(g)
    decreases |g|
  {
    if g != [] {
      FlattenLength(g[..|g| - 1]);
      FlattenDirectoriesLength(g[|g| - 1].1.results);
      ResultCountLast(g);
    }
  }
}
