/**
 * The order in which image files are loaded: `image_files.sort(key=extract_number)`
 * (src/mosaic_creator.py, line 31). Python's list.sort is a stable sort; the
 * model describes its result with a stable insertion sort and proves the three
 * facts that pin that result down: sorted by key, a permutation, and equal keys
 * in their original order. The sort is stated for any key function `key`; the
 * loader applies it with ExtractNumber.
 */
module FileOrder {
  import opened FileNames

  /** Every name comes no later than the names after it, by key. */
  predicate SortedByKey<T>(key: T -> Key, s: seq<T>) {
    forall i, j :: 0 <= i < j < |s| ==> KeyLe(key(s[i]), key(s[j]))
  }

  /** The names of `s` whose key is `k`, in the order of `s`. */
  function WithKey<T>(key: T -> Key, s: seq<T>, k: Key): (r: seq<T>)
    ensures |r| <= |s|
  {
    if s == [] then []
    else (if key(s[0]) == k then [s[0]] else []) + WithKey(key, s[1..], k)
  }

  /** Puts `x` in front of the first name whose key is not smaller than its own. */
  function Insert<T>(key: T -> Key, x: T, s: seq<T>): (r: seq<T>)
    ensures multiset(r) == multiset(s) + multiset{x}
  {
    if s == [] then [x]
    else if KeyLe(key(x), key(s[0])) then [x] + s
    else
      assert s == [s[0]] + s[1..];
      [s[0]] + Insert(key, x, s[1..])
  }

  /** The list after `sort(key=extract_number)`. */
  function SortByKey<T>(key: T -> Key, s: seq<T>): (r: seq<T>)
    ensures multiset(r) == multiset(s)
  {
    if s == [] then []
    else
      assert s == [s[0]] + s[1..];
      Insert(key, s[0], SortByKey(key, s[1..]))
  }

  lemma {:induction false} InsertKeepsSorted<T>(key: T -> Key, x: T, s: seq<T>)
    requires SortedByKey(key, s)
    ensures SortedByKey(key, Insert(key, x, s))
  {
    if s != [] && !KeyLe(key(x), key(s[0])) {
      var tail := Insert(key, x, s[1..]);
      InsertKeepsSorted(key, x, s[1..]);
      forall j | 0 <= j < |tail| ensures KeyLe(key(s[0]), key(tail[j])) {
        assert tail[j] in multiset(tail);
        if tail[j] != x {
          assert tail[j] in multiset(s[1..]);
          var m :| 0 <= m < |s[1..]| && s[1..][m] == tail[j];
          assert s[1 + m] == tail[j];
        }
      }
    }
  }

  lemma {:induction false} SortIsSorted<T>(key: T -> Key, s: seq<T>)
    ensures SortedByKey(key, SortByKey(key, s))
  {
    if s != [] {
      SortIsSorted(key, s[1..]);
      InsertKeepsSorted(key, s[0], SortByKey(key, s[1..]));
    }
  }

  lemma {:induction false} WithKeyAppend<T>(key: T -> Key, a: seq<T>, b: seq<T>, k: Key)
    ensures WithKey(key, a + b, k) == WithKey(key, a, k) + WithKey(key, b, k)
  {
    if a == [] {
      assert a + b == b;
    } else {
      var head := if key(a[0]) == k then [a[0]] else [];
      assert (a + b)[0] == a[0];
      assert (a + b)[1..] == a[1..] + b;
      WithKeyAppend(key, a[1..], b, k);
      calc {
        WithKey(key, a + b, k);
        head + WithKey(key, a[1..] + b, k);
        head + (WithKey(key, a[1..], k) + WithKey(key, b, k));
        (head + WithKey(key, a[1..], k)) + WithKey(key, b, k);
        WithKey(key, a, k) + WithKey(key, b, k);
      }
    }
  }

  lemma WithKeySingle<T>(key: T -> Key, x: T, k: Key)
    ensures WithKey(key, [x], k) == if key(x) == k then [x] else []
  {
    assert [x][1..] == [];
  }

  /**
   * Passing over a name `y` whose key differs from that of `x` keeps `x` ahead
   * of the names that share its key.
   */
  lemma StepPastOtherKey<T>(key: T -> Key, x: T, y: T, tail: seq<T>, inserted: seq<T>, k: Key)
    requires key(x) != key(y)
    requires WithKey(key, inserted, k) == WithKey(key, [x], k) + WithKey(key, tail, k)
    ensures WithKey(key, [y] + inserted, k) == WithKey(key, [x], k) + WithKey(key, [y] + tail, k)
  {
    assert ([y] + inserted)[0] == y && ([y] + inserted)[1..] == inserted;
    assert ([y] + tail)[0] == y && ([y] + tail)[1..] == tail;
    WithKeySingle(key, x, k);
    var before := if key(y) == k then [y] else [];
    var mine := WithKey(key, [x], k);
    assert before == [] || mine == [];
    assert before + (mine + WithKey(key, tail, k)) == mine + (before + WithKey(key, tail, k));
  }

  /** Inserting `x` places it before every name that shares its key. */
  lemma {:induction false} InsertIsStable<T>(key: T -> Key, x: T, s: seq<T>, k: Key)
    ensures WithKey(key, Insert(key, x, s), k) == WithKey(key, [x], k) + WithKey(key, s, k)
  {
    if s == [] {
      assert Insert(key, x, s) == [x] && [x] + s == [x];
    } else if KeyLe(key(x), key(s[0])) {
      WithKeyAppend(key, [x], s, k);
    } else {
      InsertIsStable(key, x, s[1..], k);
      assert s == [s[0]] + s[1..];
      StepPastOtherKey(key, x, s[0], s[1..], Insert(key, x, s[1..]), k);
    }
  }

  /** Stability: the names with any one key come out in the order they went in. */
  lemma {:induction false} SortIsStable<T>(key: T -> Key, s: seq<T>, k: Key)
    ensures WithKey(key, SortByKey(key, s), k) == WithKey(key, s, k)
  {
    if s != [] {
      SortIsStable(key, s[1..], k);
      InsertIsStable(key, s[0], SortByKey(key, s[1..]), k);
      WithKeyAppend(key, [s[0]], s[1..], k);
      assert [s[0]] + s[1..] == s;
    }
  }

  /**
   * What the sort promises for any key: a permutation, sorted by key, names
   * with the infinite key after all names with a finite one, and names with
   * equal keys in their original order.
   */
  lemma SortByKeyIsStableSort<T>(key: T -> Key, s: seq<T>)
    ensures var r := SortByKey(key, s);
      && multiset(r) == multiset(s)
      && SortedByKey(key, r)
      && (forall i, j :: 0 <= i < |r| && 0 <= j < |r| && key(r[i]).Infinite? && key(r[j]).Finite? ==> j < i)
      && (forall k :: WithKey(key, r, k) == WithKey(key, s, k))
  {
    var r := SortByKey(key, s);
    SortIsSorted(key, s);
    forall i, j | 0 <= i < |r| && 0 <= j < |r| && key(r[i]).Infinite? && key(r[j]).Finite?
      ensures j < i
    {
    }
    forall k ensures WithKey(key, SortByKey(key, s), k) == WithKey(key, s, k) {
      SortIsStable(key, s, k);
    }
  }

  /**
   * The ordered file list of load_images_from_folder: the image entries of the
   * listing and nothing else, sorted by key, keyless names last, and names with
   * equal keys (the keyless ones included) in listing order.
   */
  lemma OrderedImageFiles(listing: seq<string>)
    ensures var files := SortByKey(ExtractNumber, ImageFiles(listing));
      && (forall f :: multiset(files)[f] == if IsImageFileName(f) then multiset(listing)[f] else 0)
      && SortedByKey(ExtractNumber, files)
      && (forall i, j :: 0 <= i < |files| && 0 <= j < |files| && ExtractNumber(files[i]).Infinite? && ExtractNumber(files[j]).Finite? ==> j < i)
      && (forall k :: WithKey(ExtractNumber, files, k) == WithKey(ExtractNumber, ImageFiles(listing), k))
  {
    ImageFilesSelectsImages(listing);
    SortByKeyIsStableSort(ExtractNumber, ImageFiles(listing));
  }
}
