/** Python's string ordering and `list.sort(key=..., reverse=True)`: a stable
    sort into non-increasing key order, as `get_news` applies it to the
    `published` field (app.py:220). */
module PublishedOrder {

  /** `a <= b` on Python strings: lexicographic by code point, a proper
      prefix before the longer string. */
  predicate StrLe(a: string, b: string) {
    a == [] || (b != [] && (a[0] < b[0] || (a[0] == b[0] && StrLe(a[1..], b[1..]))))
  }

  /** `a` and `b` agree before position `k`, where `a` has the smaller
      character. */
  predicate DiffersLowerAt(a: string, b: string, k: int) {
    0 <= k < |a| && k < |b| && a[..k] == b[..k] && a[k] < b[k]
  }

  /** The usual definition of lexicographic order: `a` is a prefix of `b`, or
      `a` has the smaller character at the first position where they differ. */
  lemma {:induction false} StrLeIsLexicographic(a: string, b: string)
    ensures StrLe(a, b) <==> a <= b || exists k :: DiffersLowerAt(a, b, k)
  {
    if a == [] || b == [] {
    } else if a[0] < b[0] {
      assert DiffersLowerAt(a, b, 0);
    } else if a[0] > b[0] {
    } else {
      StrLeIsLexicographic(a[1..], b[1..]);
      SameFirstCharacter(a, b);
    }
  }

  /** Strings with the same first character compare as their tails do. */
  lemma SameFirstCharacter(a: string, b: string)
    requires a != [] && b != [] && a[0] == b[0]
    ensures a <= b <==> a[1..] <= b[1..]
    ensures (exists k :: DiffersLowerAt(a, b, k)) <==> exists k :: DiffersLowerAt(a[1..], b[1..], k)
  {
    assert a <= b <==> a[1..] <= b[1..] by {
      assert a == [a[0]] + a[1..] && b == [b[0]] + b[1..];
    }
    if k :| DiffersLowerAt(a, b, k) {
      assert k > 0;
      assert a[1..][..k - 1] == a[..k][1..] && b[1..][..k - 1] == b[..k][1..];
      assert DiffersLowerAt(a[1..], b[1..], k - 1);
    }
    if k :| DiffersLowerAt(a[1..], b[1..], k) {
      assert a[..k + 1] == [a[0]] + a[1..][..k] && b[..k + 1] == [b[0]] + b[1..][..k];
      assert DiffersLowerAt(a, b, k + 1);
    }
  }

  lemma {:induction false} StrLeRefl(a: string)
    ensures StrLe(a, a)
  {
    if a != [] {
      StrLeRefl(a[1..]);
    }
  }

  lemma {:induction false} StrLeTotal(a: string, b: string)
    ensures StrLe(a, b) || StrLe(b, a)
  {
    if a != [] && b != [] && a[0] == b[0] {
      StrLeTotal(a[1..], b[1..]);
    }
  }

  lemma {:induction false} StrLeAntisym(a: string, b: string)
    requires StrLe(a, b) && StrLe(b, a)
    ensures a == b
  {
    if a != [] {
      StrLeAntisym(a[1..], b[1..]);
      assert a == [a[0]] + a[1..] && b == [b[0]] + b[1..];
    }
  }

  lemma {:induction false} StrLeTrans(a: string, b: string, c: string)
    requires StrLe(a, b) && StrLe(b, c)
    ensures StrLe(a, c)
  {
    if a != [] && a[0] == b[0] && b[0] == c[0] {
      StrLeTrans(a[1..], b[1..], c[1..]);
    }
  }

  /** Keys never increase from left to right. */
  predicate SortedDesc<T>(s: seq<T>, key: T -> string) {
    forall i, j :: 0 <= i < j < |s| ==> StrLe(key(s[j]), key(s[i]))
  }

  /** The elements of `s` whose key is `k`, in order. */
  function WithKey<T>(s: seq<T>, key: T -> string, k: string): (r: seq<T>)
    ensures |r| <= |s|
  {
    if s == [] then []
    else (if key(s[0]) == k then [s[0]] else []) + WithKey(s[1..], key, k)
  }

  /** `x` placed in `s` just before the first element whose key is not
      greater than its own. */
  function Insert<T>(x: T, s: seq<T>, key: T -> string): seq<T> {
    if s == [] then [x]
    else if StrLe(key(s[0]), key(x)) then [x] + s
    else [s[0]] + Insert(x, s[1..], key)
  }

  /** `sorted(s, key=key, reverse=True)`. */
  function SortDesc<T>(s: seq<T>, key: T -> string): seq<T> {
    if s == [] then [] else Insert(s[0], SortDesc(s[1..], key), key)
  }

  // ---------------------------------------------------------------------
  // Lemmas

  lemma {:induction false} InsertMultiset<T>(x: T, s: seq<T>, key: T -> string)
    ensures multiset(Insert(x, s, key)) == multiset{x} + multiset(s)
  {
    if s != [] && !StrLe(key(s[0]), key(x)) {
      InsertMultiset(x, s[1..], key);
      assert s == [s[0]] + s[1..];
    }
  }

  lemma {:induction false} InsertSorted<T>(x: T, s: seq<T>, key: T -> string)
    requires SortedDesc(s, key)
    ensures SortedDesc(Insert(x, s, key), key)
  {
    if s == [] {
    } else if StrLe(key(s[0]), key(x)) {
      var r := [x] + s;
      forall i, j | 0 <= i < j < |r| ensures StrLe(key(r[j]), key(r[i])) {
        if i == 0 {
          if j > 1 {
            StrLeTrans(key(s[j - 1]), key(s[0]), key(x));
          }
        }
      }
    } else {
      var t := s[1..];
      assert SortedDesc(t, key) by {
        forall i, j | 0 <= i < j < |t| ensures StrLe(key(t[j]), key(t[i])) {
          assert t[i] == s[i + 1] && t[j] == s[j + 1];
        }
      }
      InsertSorted(x, t, key);
      InsertMultiset(x, t, key);
      var u := Insert(x, t, key);
      var r := [s[0]] + u;
      StrLeTotal(key(s[0]), key(x));
      forall i, j | 0 <= i < j < |r| ensures StrLe(key(r[j]), key(r[i])) {
        if i == 0 {
          // every element of `u` is `x` or an element of `t`
          assert r[j] in multiset(u);
          if r[j] == x {
          } else {
            assert r[j] in multiset(t);
            var m :| 0 <= m < |t| && t[m] == r[j];
            assert t[m] == s[m + 1];
          }
        }
      }
    }
  }

  /** The sort only reorders its input. */
  lemma {:induction false} SortDescIsPermutation<T>(s: seq<T>, key: T -> string)
    ensures multiset(SortDesc(s, key)) == multiset(s)
  {
    if s != [] {
      SortDescIsPermutation(s[1..], key);
      InsertMultiset(s[0], SortDesc(s[1..], key), key);
      assert s == [s[0]] + s[1..];
    }
  }

  /** The sort leaves the keys in non-increasing order. */
  lemma {:induction false} SortDescIsSorted<T>(s: seq<T>, key: T -> string)
    ensures SortedDesc(SortDesc(s, key), key)
  {
    if s != [] {
      SortDescIsSorted(s[1..], key);
      InsertSorted(s[0], SortDesc(s[1..], key), key);
    }
  }

  /** Inserting `x` puts it ahead of every element with the same key. */
  lemma {:induction false} InsertWithKey<T>(x: T, s: seq<T>, key: T -> string, k: string)
    ensures WithKey(Insert(x, s, key), key, k)
      == (if key(x) == k then [x] else []) + WithKey(s, key, k)
  {
    if s == [] {
    } else if StrLe(key(s[0]), key(x)) {
      WithKeyCons(x, s, key, k);
    } else {
      InsertWithKey(x, s[1..], key, k);
      StrLeRefl(key(x));
      assert [s[0]] + s[1..] == s;
      PassWithKey(x, s[0], s[1..], Insert(x, s[1..], key), key, k);
    }
  }

  /** Passing an element `y` with another key keeps `x` ahead of the
      elements with its key. */
  lemma PassWithKey<T>(x: T, y: T, rest: seq<T>, t: seq<T>, key: T -> string, k: string)
    requires key(y) != key(x)
    requires WithKey(t, key, k) == (if key(x) == k then [x] else []) + WithKey(rest, key, k)
    ensures WithKey([y] + t, key, k) == (if key(x) == k then [x] else []) + WithKey([y] + rest, key, k)
  {
    WithKeyCons(y, t, key, k);
    WithKeyCons(y, rest, key, k);
  }

  /** `WithKey` of a list with a first element `y`. */
  lemma WithKeyCons<T>(y: T, t: seq<T>, key: T -> string, k: string)
    ensures WithKey([y] + t, key, k) == (if key(y) == k then [y] else []) + WithKey(t, key, k)
  {
    assert ([y] + t)[1..] == t;
  }

  /** The sort is stable: elements with equal keys keep their relative
      order. */
  lemma {:induction false} SortDescIsStable<T>(s: seq<T>, key: T -> string, k: string)
    ensures WithKey(SortDesc(s, key), key, k) == WithKey(s, key, k)
  {
    if s != [] {
      SortDescIsStable(s[1..], key, k);
      InsertWithKey(s[0], SortDesc(s[1..], key), key, k);
    }
  }

  lemma {:induction false} WithKeyHas<T>(s: seq<T>, key: T -> string, i: nat)
    requires i < |s|
    ensures s[i] in WithKey(s, key, key(s[i]))
  {
    if i > 0 {
      WithKeyHas(s[1..], key, i - 1);
    }
  }

  lemma {:induction false} WithKeyIn<T>(s: seq<T>, key: T -> string, k: string, x: T)
    requires x in WithKey(s, key, k)
    ensures x in s && key(x) == k
  {
    if s != [] && !(key(s[0]) == k && x == s[0]) {
      WithKeyIn(s[1..], key, k, x);
    }
  }

  /** An element of a sorted sequence has a key no greater than the first. */
  lemma HeadIsGreatest<T>(s: seq<T>, key: T -> string, x: T)
    requires SortedDesc(s, key) && x in s
    ensures StrLe(key(x), key(s[0]))
  {
    var m :| 0 <= m < |s| && s[m] == x;
    if m == 0 {
      StrLeRefl(key(x));
    }
  }

  lemma SortedTail<T>(s: seq<T>, key: T -> string)
    requires s != [] && SortedDesc(s, key)
    ensures SortedDesc(s[1..], key)
  {
    var t := s[1..];
    forall i, j | 0 <= i < j < |t| ensures StrLe(key(t[j]), key(t[i])) {
      assert t[i] == s[i + 1] && t[j] == s[j + 1];
    }
  }

  /** Two sorted sequences that hold the same elements of every key in the
      same order are equal. */
  lemma {:induction false} SortedUnique<T>(r: seq<T>, t: seq<T>, key: T -> string)
    requires SortedDesc(r, key) && SortedDesc(t, key)
    requires forall k :: WithKey(r, key, k) == WithKey(t, key, k)
    ensures r == t
    decreases |r|
  {
    if r != [] && t != [] {
      WithKeyHas(t, key, 0);
      WithKeyIn(r, key, key(t[0]), t[0]);
      HeadIsGreatest(r, key, t[0]);
      WithKeyHas(r, key, 0);
      WithKeyIn(t, key, key(r[0]), r[0]);
      HeadIsGreatest(t, key, r[0]);
      StrLeAntisym(key(r[0]), key(t[0]));
      var k0 := key(r[0]);
      assert WithKey(r, key, k0) == [r[0]] + WithKey(r[1..], key, k0);
      assert WithKey(t, key, k0) == [t[0]] + WithKey(t[1..], key, k0);
      assert WithKey(r, key, k0) == WithKey(t, key, k0);
      assert r[0] == WithKey(r, key, k0)[0] == t[0];
      forall k ensures WithKey(r[1..], key, k) == WithKey(t[1..], key, k) {
        assert WithKey(r, key, k) == WithKey(t, key, k);
        if k == k0 {
          assert WithKey(r[1..], key, k) == WithKey(r, key, k)[1..];
          assert WithKey(t[1..], key, k) == WithKey(t, key, k)[1..];
        } else {
          assert key(r[0]) != k && key(t[0]) != k;
          assert WithKey(r, key, k) == WithKey(r[1..], key, k);
          assert WithKey(t, key, k) == WithKey(t[1..], key, k);
        }
      }
      SortedTail(r, key);
      SortedTail(t, key);
      SortedUnique(r[1..], t[1..], key);
      assert r == [r[0]] + r[1..] && t == [t[0]] + t[1..];
    } else if r != [] {
      WithKeyHas(r, key, 0);
    } else if t != [] {
      WithKeyHas(t, key, 0);
    }
  }

  /** `SortDesc(s)` is the only arrangement of `s` that is sorted by
      non-increasing key and keeps the elements of each key in their order in
      `s`: exactly what a stable sort with `reverse=True` returns. */
  lemma SortDescIsTheStableSort<T>(s: seq<T>, r: seq<T>, key: T -> string)
    requires SortedDesc(r, key)
    requires forall k :: WithKey(r, key, k) == WithKey(s, key, k)
    ensures r == SortDesc(s, key)
  {
    SortDescIsSorted(s, key);
    forall k ensures WithKey(SortDesc(s, key), key, k) == WithKey(s, key, k) {
      SortDescIsStable(s, key, k);
    }
    SortedUnique(r, SortDesc(s, key), key);
  }

  /** `s[:limit]` for any integer `limit`: a negative limit counts from the
      end. It serves both `all_articles[:limit]` and `feed.entries[:5]`. */
  function SliceTo<T>(s: seq<T>, limit: int): (r: seq<T>)
    ensures |r| <= |s| && r == s[..|r|]
    ensures limit >= 0 ==> |r| == if limit < |s| then limit else |s|
    ensures limit < 0 ==> |r| == if |s| + limit > 0 then |s| + limit else 0
  {
    if limit >= 0 then
      if limit < |s| then s[..limit] else s
    else
      if |s| + limit > 0 then s[..|s| + limit] else []
  }

  /** A prefix of a sorted sequence is sorted. */
  lemma SortedPrefix<T>(s: seq<T>, n: nat, key: T -> string)
    requires SortedDesc(s, key) && n <= |s|
    ensures SortedDesc(s[..n], key)
  {
    var p := s[..n];
    forall i, j | 0 <= i < j < |p| ensures StrLe(key(p[j]), key(p[i])) {
      assert p[i] == s[i] && p[j] == s[j];
    }
  }
}
