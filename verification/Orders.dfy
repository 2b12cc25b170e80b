/** Orders on strings and paths, and a stable sort, used by the last-writer-wins
    tiebreak, the content snapshot and the rotation buffer. */
module Orders {
  ghost predicate StrictTotal<T(!new)>(lt: (T, T) -> bool) {
    && (forall x :: !lt(x, x))
    && (forall x, y :: lt(x, y) || lt(y, x) || x == y)
    && (forall x, y, z :: lt(x, y) && lt(y, z) ==> lt(x, z))
  }

  /** A strict total order up to ties. */
  ghost predicate StrictWeak<T(!new)>(lt: (T, T) -> bool) {
    && (forall x, y :: lt(x, y) ==> !lt(y, x))
    && (forall x, y, z :: lt(x, y) ==> lt(x, z) || lt(z, y))
  }

  lemma TotalIsWeak<T(!new)>(lt: (T, T) -> bool)
    requires StrictTotal(lt)
    ensures StrictWeak(lt)
  {
    forall x, y | lt(x, y)
      ensures !lt(y, x)
    {
      assert !lt(x, x);
    }
    forall x, y, z | lt(x, y)
      ensures lt(x, z) || lt(z, y)
    {
      assert lt(x, z) || lt(z, x) || x == z;
    }
  }

  lemma NotLessTransitive<T(!new)>(lt: (T, T) -> bool, x: T, y: T, z: T)
    requires StrictWeak(lt) && !lt(x, y) && !lt(y, z)
    ensures !lt(x, z)
  {
  }

  /** Dictionary order: a proper prefix comes first. */
  predicate LexLess<T(==)>(lt: (T, T) -> bool, s: seq<T>, t: seq<T>) {
    if t == [] then false
    else if s == [] then true
    else if s[0] == t[0] then LexLess(lt, s[1..], t[1..])
    else lt(s[0], t[0])
  }

  /** `s` and `t` agree before position `i`, and there `s` ends first or has the smaller element. */
  ghost predicate ComesFirstAt<T>(lt: (T, T) -> bool, s: seq<T>, t: seq<T>, i: nat) {
    && i <= |s| && i < |t| && s[..i] == t[..i]
    && (i == |s| || (s[i] != t[i] && lt(s[i], t[i])))
  }

  lemma SameHeads<T(!new)>(lt: (T, T) -> bool, s: seq<T>, t: seq<T>, i: nat)
    requires ComesFirstAt(lt, s, t, i) && i > 0
    ensures s[0] == t[0]
  {
    assert s[0] == s[..i][0] && t[0] == t[..i][0];
  }

  /** Dictionary order, by the first position at which the two differ. */
  lemma {:induction false} LexLessIff<T(!new)>(lt: (T, T) -> bool, s: seq<T>, t: seq<T>)
    ensures LexLess(lt, s, t) <==> exists i: nat :: ComesFirstAt(lt, s, t, i)
  {
    if t != [] && s == [] {
      assert ComesFirstAt(lt, s, t, 0);
    } else if t != [] && s[0] == t[0] {
      LexLessIff(lt, s[1..], t[1..]);
      if i: nat :| ComesFirstAt(lt, s[1..], t[1..], i) {
        assert s[..i + 1] == [s[0]] + s[1..][..i] && t[..i + 1] == [t[0]] + t[1..][..i];
        assert ComesFirstAt(lt, s, t, i + 1);
      }
      if i: nat :| ComesFirstAt(lt, s, t, i) {
        assert i > 0;
        assert s[1..][..i - 1] == s[..i][1..] && t[1..][..i - 1] == t[..i][1..];
        assert ComesFirstAt(lt, s[1..], t[1..], i - 1);
      }
    } else if t != [] {
      assert lt(s[0], t[0]) ==> ComesFirstAt(lt, s, t, 0);
      forall i: nat | ComesFirstAt(lt, s, t, i) ensures i == 0 {
        if i > 0 {
          SameHeads(lt, s, t, i);
        }
      }
    }
  }

  lemma {:induction false} LexIrreflexive<T(!new)>(lt: (T, T) -> bool, s: seq<T>)
    ensures !LexLess(lt, s, s)
  {
    if s != [] {
      LexIrreflexive(lt, s[1..]);
    }
  }

  lemma {:induction false} LexTrichotomy<T(!new)>(lt: (T, T) -> bool, s: seq<T>, t: seq<T>)
    requires StrictTotal(lt)
    ensures LexLess(lt, s, t) || LexLess(lt, t, s) || s == t
  {
    if s != [] && t != [] {
      if s[0] == t[0] {
        LexTrichotomy(lt, s[1..], t[1..]);
        assert s == [s[0]] + s[1..] && t == [t[0]] + t[1..];
      } else {
        assert lt(s[0], t[0]) || lt(t[0], s[0]);
      }
    }
  }

  lemma {:induction false} LexTransitive<T(!new)>(lt: (T, T) -> bool, s: seq<T>, t: seq<T>, u: seq<T>)
    requires StrictTotal(lt)
    requires LexLess(lt, s, t) && LexLess(lt, t, u)
    ensures LexLess(lt, s, u)
  {
    if s != [] {
      if s[0] == t[0] == u[0] {
        LexTransitive(lt, s[1..], t[1..], u[1..]);
      }
    }
  }

  /** Rust compares `str` values byte by byte, which agrees with code point order. */
  const CharLess: (char, char) -> bool := (a: char, b: char) => a < b

  const StringLess: (string, string) -> bool := (s: string, t: string) => LexLess(CharLess, s, t)

  /** Relative paths, compared component by component. */
  const PathLess: (seq<string>, seq<string>) -> bool :=
    (s: seq<string>, t: seq<string>) => LexLess(StringLess, s, t)

  lemma LexStrictTotal<T(!new)>(lt: (T, T) -> bool, lex: (seq<T>, seq<T>) -> bool)
    requires StrictTotal(lt)
    requires forall s, t :: lex(s, t) == LexLess(lt, s, t)
    ensures StrictTotal(lex)
  {
    forall s ensures !lex(s, s) { LexIrreflexive(lt, s); }
    forall s, t ensures lex(s, t) || lex(t, s) || s == t { LexTrichotomy(lt, s, t); }
    forall s, t, u | lex(s, t) && lex(t, u) ensures lex(s, u) { LexTransitive(lt, s, t, u); }
  }

  lemma StringOrderTotal()
    ensures StrictTotal(StringLess)
    ensures forall a: char, b: char :: CharLess(a, b) <==> a < b
  {
    assert StrictTotal(CharLess);
    LexStrictTotal(CharLess, StringLess);
  }

  lemma PathOrderTotal()
    ensures StrictTotal(PathLess)
  {
    StringOrderTotal();
    LexStrictTotal(StringLess, PathLess);
  }

  ghost predicate SortedBy<T>(lt: (T, T) -> bool, s: seq<T>) {
    forall i, j :: 0 <= i < j < |s| ==> !lt(s[j], s[i])
  }

  /** Put `x` before the first element that is not smaller, keeping ties in order. */
  function InsertBy<T>(lt: (T, T) -> bool, x: T, s: seq<T>): (r: seq<T>)
    ensures multiset(r) == multiset(s) + multiset{x}
  {
    if s == [] || !lt(s[0], x) then [x] + s
    else
      assert s == [s[0]] + s[1..];
      [s[0]] + InsertBy(lt, x, s[1..])
  }

  /** The stable sort behind Rust's `sort` and `sort_by_key`. */
  function SortBy<T>(lt: (T, T) -> bool, s: seq<T>): (r: seq<T>)
    ensures multiset(r) == multiset(s)
  {
    if s == [] then []
    else
      assert s == [s[0]] + s[1..];
      InsertBy(lt, s[0], SortBy(lt, s[1..]))
  }

  lemma {:induction false} InsertSorts<T(!new)>(lt: (T, T) -> bool, x: T, s: seq<T>)
    requires StrictWeak(lt) && SortedBy(lt, s)
    ensures SortedBy(lt, InsertBy(lt, x, s))
  {
    if s != [] {
      var r := InsertBy(lt, x, s);
      if !lt(s[0], x) {
        forall j | 1 <= j < |r| ensures !lt(r[j], x) {
          assert r[j] == s[j - 1];
          NotLessTransitive(lt, s[j - 1], s[0], x);
        }
      } else {
        var tail := InsertBy(lt, x, s[1..]);
        InsertSorts(lt, x, s[1..]);
        forall j | 0 <= j < |tail| ensures !lt(tail[j], s[0]) {
          assert tail[j] in multiset(tail);
          assert tail[j] == x || tail[j] in s[1..];
        }
      }
    }
  }

  lemma {:induction false} SortSorts<T(!new)>(lt: (T, T) -> bool, s: seq<T>)
    requires StrictWeak(lt)
    ensures SortedBy(lt, SortBy(lt, s))
  {
    if s != [] {
      SortSorts(lt, s[1..]);
      InsertSorts(lt, s[0], SortBy(lt, s[1..]));
    }
  }

  lemma SortedHeadIsLeast<T(!new)>(lt: (T, T) -> bool, s: seq<T>, x: T)
    requires StrictTotal(lt) && SortedBy(lt, s) && x in multiset(s)
    ensures s != [] && !lt(x, s[0])
  {
    assert x in s;
    var i :| 0 <= i < |s| && s[i] == x;
    if i == 0 {
      assert !lt(x, x);
    }
  }

  lemma SortedTail<T(!new)>(lt: (T, T) -> bool, s: seq<T>)
    requires SortedBy(lt, s) && s != []
    ensures SortedBy(lt, s[1..]) && s == [s[0]] + s[1..]
    ensures multiset(s[1..]) == multiset(s) - multiset{s[0]}
  {
    assert s == [s[0]] + s[1..];
    var tail := s[1..];
    forall i, j | 0 <= i < j < |tail| ensures !lt(tail[j], tail[i]) {
      assert tail[i] == s[i + 1] && tail[j] == s[j + 1];
    }
  }

  /** Under a total order the sorted arrangement is unique. */
  lemma {:induction false} SortedUnique<T(!new)>(lt: (T, T) -> bool, s: seq<T>, t: seq<T>)
    requires StrictTotal(lt) && SortedBy(lt, s) && SortedBy(lt, t)
    requires multiset(s) == multiset(t)
    ensures s == t
  {
    assert |multiset(s)| == |s| && |multiset(t)| == |t|;
    if s != [] {
      assert s[0] in multiset(s) && t[0] in multiset(t);
      SortedHeadIsLeast(lt, s, t[0]);
      SortedHeadIsLeast(lt, t, s[0]);
      assert s[0] == t[0];
      SortedTail(lt, s);
      SortedTail(lt, t);
      SortedUnique(lt, s[1..], t[1..]);
    }
  }

  /** Sorting forgets the order in which the elements were listed. */
  lemma SortForgetsOrder<T(!new)>(lt: (T, T) -> bool, s: seq<T>, t: seq<T>)
    requires StrictTotal(lt) && multiset(s) == multiset(t)
    ensures SortBy(lt, s) == SortBy(lt, t)
  {
    TotalIsWeak(lt);
    SortSorts(lt, s);
    SortSorts(lt, t);
    SortedUnique(lt, SortBy(lt, s), SortBy(lt, t));
  }

  ghost predicate Ascending<T>(lt: (T, T) -> bool, s: seq<T>) {
    forall i, j :: 0 <= i < j < |s| ==> lt(s[i], s[j])
  }

  lemma AscendingTail<T(!new)>(lt: (T, T) -> bool, s: seq<T>)
    requires StrictWeak(lt) && Ascending(lt, s) && s != []
    ensures Ascending(lt, s[1..])
    ensures forall x :: x in s[1..] <==> x in s && x != s[0]
    ensures forall x :: x in s && x != s[0] ==> lt(s[0], x)
  {
    assert s == [s[0]] + s[1..];
    forall x | x in s[1..] ensures lt(s[0], x) && !lt(x, s[0]) && x != s[0] {
      var i :| 0 <= i < |s[1..]| && s[1..][i] == x;
      assert lt(s[0], s[i + 1]);
    }
  }

  /** A strictly ascending sequence is determined by its elements. */
  lemma {:induction false} AscendingUnique<T(!new)>(lt: (T, T) -> bool, s: seq<T>, t: seq<T>)
    requires StrictWeak(lt) && Ascending(lt, s) && Ascending(lt, t)
    requires forall x :: x in s <==> x in t
    ensures s == t
  {
    assert t != [] ==> t[0] in t;
    if s != [] {
      assert s[0] in t && t[0] in s;
      AscendingTail(lt, s);
      AscendingTail(lt, t);
      assert s[0] == t[0];
      assert s == [s[0]] + s[1..] && t == [t[0]] + t[1..];
      AscendingUnique(lt, s[1..], t[1..]);
    }
  }
}
