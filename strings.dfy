/**
 * The string operations the core relies on, as Rust's `str` defines them for
 * a non-empty pattern: `split` (matches found left to right, never
 * overlapping), joining fields with a separator, and `replace`.
 */
module Strings {
  import opened Wrappers

  /** The pattern `p` occurs in `s` starting at index `i`. */
  predicate OccursAt(s: string, i: nat, p: string) {
    i + |p| <= |s| && s[i..i + |p|] == p
  }

  /** `p` occurs somewhere in `s`. */
  predicate Contains(s: string, p: string) {
    exists i: nat | i <= |s| :: OccursAt(s, i, p)
  }

  /** The first occurrence of `p` in `s` at or after index `from`. */
  function FindFrom(s: string, p: string, from: nat): (r: Option<nat>)
    requires |p| > 0
    ensures r.Some? ==> from <= r.value && OccursAt(s, r.value, p)
    ensures r.Some? ==> forall j: nat :: from <= j < r.value ==> !OccursAt(s, j, p)
    ensures r.None? ==> forall j: nat :: from <= j ==> !OccursAt(s, j, p)
    decreases |s| - from
  {
    if |s| < from + |p| then None
    else if s[from..from + |p|] == p then Some(from)
    else FindFrom(s, p, from + 1)
  }

  /** `s.split(p)` for a non-empty pattern `p`, as a sequence of fields. */
  function Split(s: string, p: string): (fields: seq<string>)
    requires |p| > 0
    ensures |fields| >= 1
    decreases |s|
  {
    match FindFrom(s, p, 0)
    case None => [s]
    case Some(i) => [s[..i]] + Split(s[i + |p|..], p)
  }

  /** The fields joined with `sep` between consecutive ones. */
  function Join(fields: seq<string>, sep: string): string {
    if |fields| == 0 then []
    else if |fields| == 1 then fields[0]
    else fields[0] + sep + Join(fields[1..], sep)
  }

  /** Joining a field in front of a non-empty list of fields. */
  lemma JoinCons(f: string, fields: seq<string>, sep: string)
    requires |fields| >= 1
    ensures Join([f] + fields, sep) == f + sep + Join(fields, sep)
  {
    assert ([f] + fields)[1..] == fields;
  }

  /** `s.replace(from, to)`: every match of `from`, left to right, replaced by `to`. */
  function Replace(s: string, from: string, to: string): (r: string)
    requires |from| > 0
    ensures !Contains(s, from) ==> r == s
    ensures from == to ==> r == s
  {
    JoinSplit(s, from);
    Join(Split(s, from), to)
  }

  /** Joining the fields of a split with the pattern gives back the original text. */
  lemma {:induction false} JoinSplit(s: string, p: string)
    requires |p| > 0
    ensures Join(Split(s, p), p) == s
    decreases |s|
  {
    match FindFrom(s, p, 0)
    case None =>
    case Some(i) =>
      var rest := s[i + |p|..];
      assert Split(s, p) == [s[..i]] + Split(rest, p);
      JoinSplit(rest, p);
      JoinCons(s[..i], Split(rest, p), p);
      CutAt(s, i, p);
  }

  /** Cutting a text around an occurrence of a pattern and rejoining it. */
  lemma CutAt(s: string, i: nat, p: string)
    requires OccursAt(s, i, p)
    ensures s[..i] + p + s[i + |p|..] == s
  {
    assert s[i..] == s[i..i + |p|] + s[i + |p|..];
    assert s[..i] + s[i..] == s;
  }

  /** No field of a split contains the pattern. */
  lemma {:induction false} SplitFieldsAvoidPattern(s: string, p: string)
    requires |p| > 0
    ensures forall k :: 0 <= k < |Split(s, p)| ==> !Contains(Split(s, p)[k], p)
    decreases |s|
  {
    match FindFrom(s, p, 0)
    case None =>
    case Some(i) =>
      var rest := s[i + |p|..];
      SplitFieldsAvoidPattern(rest, p);
      var head := s[..i];
      assert |head| == i;
      forall j: nat | j <= |head|
        ensures !OccursAt(head, j, p)
      {
        if j + |p| <= |head| {
          assert !OccursAt(s, j, p);
          assert head[j..j + |p|] == s[j..j + |p|];
        }
      }
      assert Split(s, p) == [head] + Split(rest, p);
  }

  /** A one-character pattern occurs in `s` exactly when its character does. */
  lemma ContainsChar(s: string, c: char)
    ensures Contains(s, [c]) <==> c in s
  {
    if c in s {
      var i :| 0 <= i < |s| && s[i] == c;
      assert s[i..i + 1] == [c];
      assert OccursAt(s, i, [c]);
    }
    if Contains(s, [c]) {
      var i: nat :| i <= |s| && OccursAt(s, i, [c]);
      assert s[i] == s[i..i + 1][0];
    }
  }

  /**
   * With a one-character separator the split is the only way to cut a text
   * into fields free of that character: splitting a join gives the fields back.
   */
  lemma {:induction false} SplitJoin(fields: seq<string>, c: char)
    requires |fields| >= 1
    requires forall k :: 0 <= k < |fields| ==> !Contains(fields[k], [c])
    ensures Split(Join(fields, [c]), [c]) == fields
    decreases |fields|
  {
    var s := Join(fields, [c]);
    var f := fields[0];
    ContainsChar(f, c);
    if |fields| == 1 {
      assert s == f;
      forall j: nat
        ensures !OccursAt(s, j, [c])
      {
        if j < |s| {
          assert s[j..j + 1] == [s[j]];
        }
      }
      assert FindFrom(s, [c], 0).None?;
    } else {
      var rest := Join(fields[1..], [c]);
      assert s == f + [c] + rest;
      assert OccursAt(s, |f|, [c]) by {
        assert s[|f|..|f| + 1] == [c];
      }
      forall j: nat | j < |f|
        ensures !OccursAt(s, j, [c])
      {
        assert s[j..j + 1] == [f[j]];
      }
      assert FindFrom(s, [c], 0) == Some(|f|);
      assert s[..|f|] == f;
      assert s[|f| + 1..] == rest;
      SplitJoin(fields[1..], c);
      assert fields == [f] + fields[1..];
    }
  }

  /**
   * Replacing a one-character pattern by one character keeps the length and
   * changes exactly the positions holding the pattern character.
   */
  lemma {:induction false} ReplaceCharPointwise(s: string, c: char, d: char)
    ensures |Replace(s, [c], [d])| == |s|
    ensures forall k :: 0 <= k < |s| ==> Replace(s, [c], [d])[k] == if s[k] == c then d else s[k]
    decreases |s|
  {
    match FindFrom(s, [c], 0)
    case None =>
      forall k | 0 <= k < |s|
        ensures s[k] != c
      {
        assert !OccursAt(s, k, [c]);
        assert s[k..k + 1] == [s[k]];
      }
    case Some(i) =>
      var rest := s[i + 1..];
      ReplaceCharPointwise(rest, c, d);
      JoinCons(s[..i], Split(rest, [c]), [d]);
      var r := Replace(s, [c], [d]);
      assert r == s[..i] + [d] + Replace(rest, [c], [d]);
      forall k | 0 <= k < |s|
        ensures r[k] == if s[k] == c then d else s[k]
      {
        if k < i {
          assert !OccursAt(s, k, [c]);
          assert s[k..k + 1] == [s[k]];
          assert r[k] == s[k];
        } else if k == i {
          assert s[i..i + 1] == [c];
          assert r[k] == d;
        } else {
          assert rest[k - i - 1] == s[k];
          assert r[k] == Replace(rest, [c], [d])[k - i - 1];
        }
      }
  }
}
