/**
 * The key rewrite the renderer applies to callback-valued transition props:
 * a dash goes between a lower-case letter and the capital after it, and the
 * capital is lower-cased. The regular expression has no `g` flag, so only
 * the first match, the leftmost lower-to-upper boundary, is rewritten.
 */
module Kebab {
  import opened Wrappers

  predicate IsLower(c: char) { 'a' <= c <= 'z' }

  predicate IsUpper(c: char) { 'A' <= c <= 'Z' }

  /** `toLowerCase` on an ASCII capital. */
  function ToLower(c: char): (r: char)
    requires IsUpper(c)
    ensures IsLower(r) && r as int - c as int == 32
  {
    (c as int + 32) as char
  }

  /** The inverse, used to state that the rewrite loses nothing. */
  function ToUpper(c: char): (r: char)
    requires IsLower(c)
    ensures IsUpper(r) && ToLower(r) == c
  {
    (c as int - 32) as char
  }

  /** `s[i..i+2]` matches `([a-z])([A-Z])`. */
  predicate BoundaryAt(s: string, i: int)
  {
    0 <= i && i + 1 < |s| && IsLower(s[i]) && IsUpper(s[i + 1])
  }

  ghost predicate NoBoundary(s: string)
  {
    forall i :: !BoundaryAt(s, i)
  }

  /** The key has at most one lower-to-upper boundary. */
  ghost predicate AtMostOneBoundary(s: string)
  {
    forall i, j :: BoundaryAt(s, i) && BoundaryAt(s, j) ==> i == j
  }

  /** The leftmost match at or after `from`, as the regular-expression search finds it. */
  function FirstBoundaryFrom(s: string, from: nat): (r: Option<nat>)
    ensures r.Some? ==> from <= r.value && BoundaryAt(s, r.value)
    ensures r.Some? ==> forall j :: from <= j < r.value ==> !BoundaryAt(s, j)
    ensures r.None? ==> forall j :: from <= j ==> !BoundaryAt(s, j)
    decreases |s| - from
  {
    if from + 1 >= |s| then None
    else if BoundaryAt(s, from) then Some(from)
    else FirstBoundaryFrom(s, from + 1)
  }

  function FirstBoundary(s: string): Option<nat>
  {
    FirstBoundaryFrom(s, 0)
  }

  /**
   * The rewrite as the renderer performs it: the key is left alone exactly
   * when no boundary is found, and otherwise grows by the one inserted dash.
   */
  function KebabKey(key: string): (r: string)
    ensures r == key <==> FirstBoundary(key).None?
    ensures |r| == if FirstBoundary(key).None? then |key| else |key| + 1
  {
    match FirstBoundary(key)
    case None => key
    case Some(i) => key[..i + 1] + ['-', ToLower(key[i + 1])] + key[i + 2..]
  }

  /**
   * The same replacement with the `g` flag: every boundary rewritten. After a
   * match the scan resumes two characters on; matches cannot overlap since the
   * second character of one is a capital and cannot start another.
   */
  function KebabAll(s: string): string
    decreases |s|
  {
    if |s| < 2 then s
    else if BoundaryAt(s, 0) then [s[0], '-', ToLower(s[1])] + KebabAll(s[2..])
    else [s[0]] + KebabAll(s[1..])
  }

  /** A key without a boundary is left unchanged. */
  lemma KebabKeyWithoutBoundary(key: string)
    ensures NoBoundary(key) <==> KebabKey(key) == key
  {
    if !NoBoundary(key) {
      var i :| BoundaryAt(key, i);
      assert FirstBoundary(key).Some?;
      assert |KebabKey(key)| == |key| + 1;
    }
  }

  /**
   * With a boundary, the rewrite inserts `-` after the lower-case letter of the
   * first boundary, lower-cases the capital after it, and keeps everything
   * else in place; re-capitalising and dropping the dash gives the key back.
   */
  lemma KebabKeyAtFirstBoundary(key: string, i: nat)
    requires BoundaryAt(key, i) && forall j :: 0 <= j < i ==> !BoundaryAt(key, j)
    ensures var r := KebabKey(key);
      && |r| == |key| + 1
      && r[..i + 1] == key[..i + 1]
      && r[i + 1] == '-'
      && r[i + 2] == ToLower(key[i + 1])
      && r[i + 3..] == key[i + 2..]
      && r[..i + 1] + [ToUpper(r[i + 2])] + r[i + 3..] == key
  {
    assert FirstBoundary(key) == Some(i);
    var r := KebabKey(key);
    assert key == key[..i + 1] + [key[i + 1]] + key[i + 2..];
  }

  /**
   * Only the first boundary is rewritten: every later boundary of the key
   * is still a boundary of the result, one place further on.
   */
  lemma LaterBoundariesKept(key: string, i: nat, j: nat)
    requires BoundaryAt(key, i) && forall k :: 0 <= k < i ==> !BoundaryAt(key, k)
    requires i < j && BoundaryAt(key, j)
    ensures BoundaryAt(KebabKey(key), j + 1)
  {
    KebabKeyAtFirstBoundary(key, i);
    var r := KebabKey(key);
    assert j >= i + 2;
    assert r[i + 3..][j - i - 2] == key[i + 2..][j - i - 2];
    assert r[i + 3..][j - i - 1] == key[i + 2..][j - i - 1];
  }

  /** `beforeEnter` becomes `before-enter`, the form the renderer binds the hook under. */
  lemma KebabKeyBeforeEnter()
    ensures KebabKey("beforeEnter") == "before-enter"
  {
    assert FirstBoundaryFrom("beforeEnter", 5) == Some(5);
    assert FirstBoundaryFrom("beforeEnter", 0) == Some(5);
  }

  /** `fooBarBaz` becomes `foo-barBaz`: the second boundary is left as it is. */
  lemma KebabKeyFooBarBaz()
    ensures KebabKey("fooBarBaz") == "foo-barBaz"
  {
    assert FirstBoundaryFrom("fooBarBaz", 2) == Some(2);
    assert FirstBoundaryFrom("fooBarBaz", 0) == Some(2);
  }

  /** The global replace would rewrite both boundaries of `fooBarBaz`. */
  lemma KebabAllFooBarBaz()
    ensures KebabAll("fooBarBaz") == "foo-bar-baz"
  {
    assert FirstBoundaryFrom("fooBarBaz", 2) == Some(2);
    assert FirstBoundaryFrom("fooBarBaz", 0) == Some(2);
    RewritesAfterFirst("fooBarBaz", 2);
    assert "fooBarBaz"[4..] == "arBaz";
    assert FirstBoundaryFrom("arBaz", 1) == Some(1);
    assert FirstBoundaryFrom("arBaz", 0) == Some(1);
    RewritesAfterFirst("arBaz", 1);
    assert "arBaz"[3..] == "az";
    assert "az"[1..] == "z" && KebabAll("az") == "az";
  }

  /** Without a boundary the global rewrite changes nothing either; with one it lengthens the key. */
  lemma {:induction false} KebabAllUnchanged(s: string)
    ensures |KebabAll(s)| >= |s|
    ensures KebabAll(s) == s <==> NoBoundary(s)
    decreases |s|
  {
    if |s| < 2 {
      assert NoBoundary(s);
    } else if BoundaryAt(s, 0) {
      KebabAllUnchanged(s[2..]);
    } else {
      KebabAllUnchanged(s[1..]);
      assert NoBoundary(s) <==> NoBoundary(s[1..]) by {
        forall j | BoundaryAt(s, j) ensures BoundaryAt(s[1..], j - 1) {}
        forall j | BoundaryAt(s[1..], j) ensures BoundaryAt(s, j + 1) {}
      }
      assert KebabAll(s) == s <==> KebabAll(s[1..]) == s[1..] by {
        if KebabAll(s) == s {
          assert KebabAll(s)[1..] == KebabAll(s[1..]);
        }
      }
    }
  }

  /** Before the first boundary, the global rewrite copies the key character by character. */
  lemma {:induction false} KebabAllCopies(s: string, i: nat)
    requires i <= |s| && forall j :: 0 <= j < i ==> !BoundaryAt(s, j)
    ensures KebabAll(s) == s[..i] + KebabAll(s[i..])
    decreases i
  {
    if i == 0 {
      assert s[..0] == [] && s[0..] == s;
    } else if |s| < 2 {
      assert s[..i] + s[i..] == s;
    } else {
      var t := s[1..];
      assert !BoundaryAt(s, 0);
      forall j | 0 <= j < i - 1 ensures !BoundaryAt(t, j) {
        assert !BoundaryAt(s, j + 1);
      }
      KebabAllCopies(t, i - 1);
      assert t[i - 1..] == s[i..];
      assert s[..i] == [s[0]] + t[..i - 1];
    }
  }

  /** Up to the first boundary, the global rewrite copies the key; at it, it rewrites as the single one does. */
  lemma KebabAllUpToFirst(s: string, i: nat)
    requires BoundaryAt(s, i) && forall j :: 0 <= j < i ==> !BoundaryAt(s, j)
    ensures KebabAll(s) == s[..i] + [s[i], '-', ToLower(s[i + 1])] + KebabAll(s[i + 2..])
  {
    KebabAllCopies(s, i);
    var r := s[i..];
    assert BoundaryAt(r, 0) && r[0] == s[i] && r[1] == s[i + 1];
    assert r[2..] == s[i + 2..];
  }

  /** The key has a second boundary exactly when the part after its first one has a boundary. */
  lemma OneBoundaryIffRestHasNone(key: string, i: nat)
    requires BoundaryAt(key, i) && forall j :: 0 <= j < i ==> !BoundaryAt(key, j)
    ensures AtMostOneBoundary(key) <==> NoBoundary(key[i + 2..])
  {
    var rest := key[i + 2..];
    forall j | BoundaryAt(key, j) && j != i ensures BoundaryAt(rest, j - i - 2) {
      assert j >= i + 2;
    }
    forall k | BoundaryAt(rest, k) ensures BoundaryAt(key, k + i + 2) {}
  }

  lemma CancelPrefix(p: string, a: string, b: string)
    ensures p + a == p + b <==> a == b
  {
    if p + a == p + b {
      assert a == (p + a)[|p|..];
      assert b == (p + b)[|p|..];
    }
  }

  /** Without any boundary both rewrites leave the key alone. */
  lemma GlobalAgreesWithoutBoundary(key: string)
    requires FirstBoundary(key).None?
    ensures KebabKey(key) == KebabAll(key) && AtMostOneBoundary(key)
  {
    KebabAllUnchanged(key);
  }

  /** With a first boundary at `i`, both rewrites share the prefix up to it and differ only in what follows. */
  lemma RewritesAfterFirst(key: string, i: nat)
    requires FirstBoundary(key) == Some(i)
    ensures var p := key[..i + 1] + ['-', ToLower(key[i + 1])];
      KebabKey(key) == p + key[i + 2..] && KebabAll(key) == p + KebabAll(key[i + 2..])
  {
    KebabAllUpToFirst(key, i);
    assert key[..i + 1] + ['-', ToLower(key[i + 1])] == key[..i] + [key[i], '-', ToLower(key[i + 1])];
  }

  /** With a first boundary at `i`, the rewrites agree exactly when nothing after it is a boundary. */
  lemma GlobalAgreesAfterFirst(key: string, i: nat)
    requires FirstBoundary(key) == Some(i)
    ensures KebabKey(key) == KebabAll(key) <==> AtMostOneBoundary(key)
  {
    var rest := key[i + 2..];
    RewritesAfterFirst(key, i);
    CancelPrefix(key[..i + 1] + ['-', ToLower(key[i + 1])], rest, KebabAll(rest));
    KebabAllUnchanged(rest);
    OneBoundaryIffRestHasNone(key, i);
  }

  /**
   * The single rewrite agrees with the global one exactly when the key has at
   * most one boundary: the two part ways from the second boundary on.
   */
  lemma KebabKeyIsGlobalIffOneBoundary(key: string)
    ensures KebabKey(key) == KebabAll(key) <==> AtMostOneBoundary(key)
  {
    match FirstBoundary(key)
    case None => GlobalAgreesWithoutBoundary(key);
    case Some(i) => GlobalAgreesAfterFirst(key, i);
  }
}
