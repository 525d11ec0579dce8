/** Shared vocabulary of the ledger model: failure-carrying results, byte strings,
    the lexicographic order on storage keys, and ordered listings of keys. */
module Common {

  /** An optional value, as Rust's `Option`. */
  datatype Option<+T> = None | Some(value: T)

  /** A value or an error, as Rust's `Result`; usable with `:-`. */
  datatype Result<+T, +E> = Ok(value: T) | Err(error: E) {
    predicate IsFailure() { Err? }

    function PropagateFailure<U>(): Result<U, E>
      requires Err?
    {
      Err(error)
    }

    function Extract(): T
      requires Ok?
    {
      value
    }
  }

  /** Success without a value, or an error: Rust's `Result<(), E>`. */
  datatype Outcome<+E> = Pass | Fail(error: E)

  newtype byte = x: int | 0 <= x < 256

  type Bytes = seq<byte>

  /** A storage key in its serialised (string) form. */
  type Key = string

  /** The elements of a sequence, as a set. */
  function Elems<T>(s: seq<T>): set<T>
  {
    set x | x in s
  }

  lemma ElemsEmpty<T>(s: seq<T>)
    ensures Elems(s) == {} <==> |s| == 0
  {
    if |s| > 0 {
      assert s[0] in Elems(s);
    }
  }

  /** No element occurs twice. */
  predicate Distinct<T(==)>(s: seq<T>)
  {
    forall i, j :: 0 <= i < j < |s| ==> s[i] != s[j]
  }

  /** A sequence has as many distinct elements as entries exactly when no entry repeats. */
  lemma {:induction false} DistinctIffElemsSize<T>(s: seq<T>)
    ensures |Elems(s)| <= |s|
    ensures |Elems(s)| == |s| <==> Distinct(s)
    decreases |s|
  {
    if |s| > 0 {
      var init := s[..|s| - 1];
      var last := s[|s| - 1];
      DistinctIffElemsSize(init);
      assert Elems(s) == Elems(init) + {last} by {
        forall x | x in Elems(s) ensures x in Elems(init) + {last} {
          var i :| 0 <= i < |s| && s[i] == x;
          if i < |s| - 1 { assert init[i] == x; }
        }
      }
      if last in Elems(init) {
        var i :| 0 <= i < |init| && init[i] == last;
        assert Elems(s) == Elems(init);
        assert s[i] == s[|s| - 1];
        assert !Distinct(s);
      } else {
        assert |Elems(s)| == |Elems(init)| + 1;
        if Distinct(init) {
          forall i, j | 0 <= i < j < |s| ensures s[i] != s[j] {
            if j == |s| - 1 {
              assert init[i] == s[i];
            } else {
              assert init[i] == s[i] && init[j] == s[j];
            }
          }
        } else {
          var i, j :| 0 <= i < j < |init| && init[i] == init[j];
          assert s[i] == s[j];
        }
      }
    }
  }

  // ---------------------------------------------------------------------------
  // Lexicographic order on keys

  /** Strict lexicographic order on serialised keys (a proper prefix sorts first). */
  predicate Less(a: Key, b: Key)
    decreases |a|
  {
    if |a| == 0 then |b| > 0
    else if |b| == 0 then false
    else a[0] < b[0] || (a[0] == b[0] && Less(a[1..], b[1..]))
  }

  lemma {:induction false} LessIrreflexive(a: Key)
    ensures !Less(a, a)
    decreases |a|
  {
    if |a| > 0 {
      LessIrreflexive(a[1..]);
    }
  }

  lemma {:induction false} LessTransitive(a: Key, b: Key, c: Key)
    requires Less(a, b) && Less(b, c)
    ensures Less(a, c)
    decreases |a|
  {
    if |a| > 0 {
      if a[0] == b[0] && b[0] == c[0] {
        LessTransitive(a[1..], b[1..], c[1..]);
      }
    }
  }

  lemma {:induction false} LessTotal(a: Key, b: Key)
    ensures a == b || Less(a, b) || Less(b, a)
    decreases |a|
  {
    if |a| > 0 && |b| > 0 && a[0] == b[0] {
      LessTotal(a[1..], b[1..]);
      if a[1..] == b[1..] {
        assert a == [a[0]] + a[1..] && b == [b[0]] + b[1..];
      }
    }
  }

  /** `m` is the smallest key of `s`. */
  predicate IsLeast(m: Key, s: set<Key>)
  {
    m in s && forall x :: x in s && x != m ==> Less(m, x)
  }

  /** Every finite non-empty set of keys has a smallest element. */
  lemma {:induction false} LeastExists(s: set<Key>)
    requires s != {}
    ensures exists m :: IsLeast(m, s)
    decreases |s|
  {
    var y :| y in s;
    if s - {y} == {} {
      assert s == {y};
      assert IsLeast(y, s);
    } else {
      LeastExists(s - {y});
      var m :| IsLeast(m, s - {y});
      LessTotal(y, m);
      if Less(y, m) {
        forall x | x in s && x != y ensures Less(y, x) {
          if x != m {
            LessTransitive(y, m, x);
          }
        }
        assert IsLeast(y, s);
      } else {
        assert IsLeast(m, s);
      }
    }
  }

  /** Keys listed in strictly ascending order (hence without repetition). */
  predicate StrictlyAscending(ks: seq<Key>)
  {
    forall i, j :: 0 <= i < j < |ks| ==> Less(ks[i], ks[j])
  }

  /** Two strictly ascending listings of the same keys are the same listing. */
  lemma {:induction false} AscendingUnique(a: seq<Key>, b: seq<Key>)
    requires StrictlyAscending(a) && StrictlyAscending(b)
    requires Elems(a) == Elems(b)
    ensures a == b
    decreases |a|
  {
    if |a| == 0 || |b| == 0 {
      ElemsEmpty(a);
      ElemsEmpty(b);
    } else {
      assert a[0] in Elems(b);
      var j :| 0 <= j < |b| && b[j] == a[0];
      assert b[0] in Elems(a);
      var i :| 0 <= i < |a| && a[i] == b[0];
      if i > 0 && j > 0 {
        LessTransitive(a[0], b[0], a[0]);
        LessIrreflexive(a[0]);
      }
      if i == 0 {
        assert a[0] == b[0];
      } else {
        assert j == 0;
      }
      assert a[0] == b[0];
      forall x | x in Elems(a[1..]) ensures x in Elems(b[1..]) {
        var k :| 0 <= k < |a[1..]| && a[1..][k] == x;
        assert Less(a[0], x);
        assert x in Elems(b);
        var l :| 0 <= l < |b| && b[l] == x;
        if l == 0 {
          LessIrreflexive(x);
        }
        assert b[1..][l - 1] == x;
      }
      forall x | x in Elems(b[1..]) ensures x in Elems(a[1..]) {
        var k :| 0 <= k < |b[1..]| && b[1..][k] == x;
        assert Less(b[0], x);
        assert x in Elems(a);
        var l :| 0 <= l < |a| && a[l] == x;
        if l == 0 {
          LessIrreflexive(x);
        }
        assert a[1..][l - 1] == x;
      }
      AscendingUnique(a[1..], b[1..]);
      assert a == [a[0]] + a[1..] && b == [b[0]] + b[1..];
    }
  }
}
