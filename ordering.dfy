/** The order in which grouping lays out its keys: strings compared
    lexicographically, character by character, a proper prefix first. */
module Ordering {

  /** Strict lexicographic order on strings. */
  predicate Less(a: string, b: string)
    decreases |a|
  {
    if a == [] then b != []
    else if b == [] then false
    else if a[0] != b[0] then a[0] < b[0]
    else Less(a[1..], b[1..])
  }

  lemma {:induction false} LessIrreflexive(a: string)
    ensures !Less(a, a)
    decreases |a|
  {
    if a != [] {
      LessIrreflexive(a[1..]);
    }
  }

  lemma {:induction false} LessTransitive(a: string, b: string, c: string)
    requires Less(a, b) && Less(b, c)
    ensures Less(a, c)
    decreases |a|
  {
    if a != [] && b != [] && c != [] && a[0] == b[0] && b[0] == c[0] {
      LessTransitive(a[1..], b[1..], c[1..]);
    }
  }

  lemma {:induction false} LessTotal(a: string, b: string)
    ensures a == b || Less(a, b) || Less(b, a)
    decreases |a|
  {
    if a != [] && b != [] && a[0] == b[0] {
      LessTotal(a[1..], b[1..]);
      if a[1..] == b[1..] {
        assert a == [a[0]] + a[1..] && b == [b[0]] + b[1..];
      }
    }
  }

  /** Keys in strictly ascending order, hence without repetition. */
  predicate StrictlyAscending(s: seq<string>) {
    forall i, j :: 0 <= i < j < |s| ==> Less(s[i], s[j])
  }

  /** Adds a key to an ascending key list, keeping it ascending and
      adding nothing when the key is already present. */
  function InsertKey(k: string, s: seq<string>): (r: seq<string>)
    requires StrictlyAscending(s)
    ensures StrictlyAscending(r)
    ensures forall x :: x in r <==> x == k || x in s
    ensures |r| == if k in s then |s| else |s| + 1
  {
    if s == [] then [k]
    else if k == s[0] then s
    else if Less(k, s[0]) then
      assert k !in s by {
        if k in s {
          var j :| 0 <= j < |s| && s[j] == k;
          LessTransitive(k, s[0], s[j]);
          LessIrreflexive(k);
        }
      }
      var r := [k] + s;
      assert StrictlyAscending(r) by {
        forall i, j | 0 <= i < j < |r| ensures Less(r[i], r[j]) {
          if i == 0 && j > 1 {
            LessTransitive(k, s[0], s[j - 1]);
          }
        }
      }
      r
    else
      LessTotal(k, s[0]);
      var tail := InsertKey(k, s[1..]);
      var r := [s[0]] + tail;
      assert StrictlyAscending(r) by {
        forall i, j | 0 <= i < j < |r| ensures Less(r[i], r[j]) {
          if i == 0 {
            assert r[j] in tail;
          }
        }
      }
      assert k in s <==> k in s[1..] by {
        assert s == [s[0]] + s[1..];
      }
      r
  }
}
