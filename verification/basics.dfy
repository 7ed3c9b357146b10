/** Small shared vocabulary: optional values, results, and the set view of a sequence. */
module Basics {

  /** A value that may be absent (a C# null reference or a failed lookup). */
  datatype Option<+T> = None | Some(value: T) {

    /** The wrapped value, or `default` when absent (the C# `??` operator). */
    function GetOr(default: T): (r: T) {
      match this
      case Some(v) => v
      case None => default
    }
  }

  /** Either a value or the error that the source would raise as an exception. */
  datatype Result<+T, +E> = Success(value: T) | Failure(error: E)

  /** The set of values that occur in `s`. */
  function Elements<T(==)>(s: seq<T>): (r: set<T>) {
    set x | x in s
  }

  /** No value occurs twice in `s`. */
  predicate Distinct<T(==)>(s: seq<T>) {
    forall i, j :: 0 <= i < j < |s| ==> s[i] != s[j]
  }

  /** Appending a value not yet present keeps a sequence duplicate-free and adds
      exactly that value to its elements. */
  lemma AppendFresh<T>(s: seq<T>, x: T)
    requires Distinct(s) && x !in Elements(s)
    ensures Distinct(s + [x])
    ensures Elements(s + [x]) == Elements(s) + {x}
  {
    var t := s + [x];
    forall i, j | 0 <= i < j < |t| ensures t[i] != t[j] {
      assert t[i] == s[i];
      if j == |s| { assert s[i] in Elements(s); }
    }
  }

  /** Collapsing a sequence into a set never gains elements, and loses none
      exactly when the sequence is duplicate-free. */
  lemma {:induction false} ElementsCardinality<T>(s: seq<T>)
    ensures |Elements(s)| <= |s|
    ensures |Elements(s)| == |s| <==> Distinct(s)
  {
    if |s| == 0 {
      assert Elements(s) == {};
    } else {
      var rest := s[1..];
      ElementsCardinality(rest);
      assert Elements(s) == {s[0]} + Elements(rest) by {
        forall x | x in Elements(s) ensures x in {s[0]} + Elements(rest) {
          var i :| 0 <= i < |s| && s[i] == x;
          if i > 0 { assert rest[i - 1] == x; }
        }
      }
      if s[0] in rest {
        var k :| 0 <= k < |rest| && rest[k] == s[0];
        assert s[0] == s[k + 1];
        assert !Distinct(s);
      } else {
        assert s[0] !in Elements(rest);
        assert Distinct(s) <==> Distinct(rest) by {
          if Distinct(rest) {
            forall i, j | 0 <= i < j < |s| ensures s[i] != s[j] {
              if i == 0 {
                assert s[j] == rest[j - 1];
              } else {
                assert s[i] == rest[i - 1] && s[j] == rest[j - 1];
              }
            }
          }
          if Distinct(s) {
            forall i, j | 0 <= i < j < |rest| ensures rest[i] != rest[j] {
              assert rest[i] == s[i + 1] && rest[j] == s[j + 1];
            }
          }
        }
      }
    }
  }
}
