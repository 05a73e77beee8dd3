/**
 * The root instance's transition descriptor and the split the render
 * function performs on it: callback-valued props become event listeners
 * (under their kebab-cased key), every other prop stays a prop.
 */
module Transition {
  import opened Wrappers
  import opened Kebab

  /** A property value; only `typeof v === 'function'` matters to the split. */
  datatype Value = Callback(id: nat) | Str(s: string) | Num(n: int) | Bool(b: bool) | Null | Undefined

  predicate IsFunction(v: Value) { v.Callback? }

  /** A JavaScript object: its own properties in key order. */
  type Entry = (string, Value)

  predicate UniqueKeys(d: seq<Entry>)
  {
    forall i, j :: 0 <= i < j < |d| ==> d[i].0 != d[j].0
  }

  /** An object has each key at most once. */
  type JsObject = d: seq<Entry> | UniqueKeys(d) witness []

  /** `Object.keys(d)`. */
  function Keys(d: seq<Entry>): (r: seq<string>)
    ensures |r| == |d|
    decreases |d|
  {
    if d == [] then [] else [d[0].0] + Keys(d[1..])
  }

  /** The `i`-th key is the key of the `i`-th property. */
  lemma {:induction false} KeysAt(d: seq<Entry>, i: nat)
    requires i < |d|
    ensures Keys(d)[i] == d[i].0
    decreases i
  {
    if i > 0 {
      KeysAt(d[1..], i - 1);
    }
  }

  /** `d[k]`, `None` standing for a missing property. */
  function Lookup(d: seq<Entry>, k: string): (r: Option<Value>)
    ensures r.None? <==> k !in Keys(d)
    ensures r.Some? ==> (k, r.value) in d
    decreases |d|
  {
    if d == [] then None
    else if d[0].0 == k then Some(d[0].1)
    else Lookup(d[1..], k)
  }

  /** `d[k] = v`: an existing key keeps its place, a new key goes last. */
  function Put(d: seq<Entry>, k: string, v: Value): (r: seq<Entry>)
    ensures |r| == if k in Keys(d) then |d| else |d| + 1
    decreases |d|
  {
    if d == [] then [(k, v)]
    else if d[0].0 == k then [(k, v)] + d[1..]
    else [d[0]] + Put(d[1..], k, v)
  }

  /** After `d[k] = v`, the key `k` reads `v` and every other key reads as before. */
  lemma {:induction false} PutLookup(d: seq<Entry>, k: string, v: Value, k': string)
    ensures Lookup(Put(d, k, v), k') == if k' == k then Some(v) else Lookup(d, k')
    decreases |d|
  {
    if d != [] && d[0].0 != k {
      PutLookup(d[1..], k, v, k');
    }
  }

  /** Assignment adds no property other than the one assigned. */
  lemma {:induction false} PutMembers(d: seq<Entry>, k: string, v: Value)
    ensures forall e :: e in Put(d, k, v) ==> e in d || e == (k, v)
    decreases |d|
  {
    if d != [] && d[0].0 != k {
      PutMembers(d[1..], k, v);
    }
  }

  /** Assignment keeps the keys of an object unique. */
  lemma {:induction false} PutUnique(d: seq<Entry>, k: string, v: Value)
    requires UniqueKeys(d)
    ensures UniqueKeys(Put(d, k, v))
    decreases |d|
  {
    if d != [] && d[0].0 != k {
      assert UniqueKeys(d[1..]);
      PutUnique(d[1..], k, v);
      PutMembers(d[1..], k, v);
      var r := Put(d, k, v);
      forall j | 1 <= j < |r| ensures r[0].0 != r[j].0 {
        assert r[j] in Put(d[1..], k, v);
        if r[j] in d[1..] {
          var n :| 0 <= n < |d[1..]| && d[1..][n] == r[j];
          assert d[n + 1] == r[j];
        }
      }
    }
  }

  /** `delete d[k]`: the other properties keep their order. */
  function Delete(d: seq<Entry>, k: string): (r: seq<Entry>)
    ensures |r| <= |d|
    decreases |d|
  {
    if d == [] then []
    else (if d[0].0 == k then [] else [d[0]]) + Delete(d[1..], k)
  }

  /** Deleting removes the property with that key and nothing else. */
  lemma {:induction false} DeleteMembers(d: seq<Entry>, k: string)
    ensures forall e :: e in Delete(d, k) <==> e in d && e.0 != k
    decreases |d|
  {
    if d != [] {
      DeleteMembers(d[1..], k);
      assert d == [d[0]] + d[1..];
    }
  }

  /** Copying the descriptor into a fresh object: `null` copies to the empty object, an object to its own properties. */
  function Own(t: Option<JsObject>): (r: JsObject)
    ensures t.None? ==> r == []
    ensures t.Some? ==> r == t.value
  {
    match t
    case None => []
    case Some(d) => d
  }

  /** What stays of the copy once the loop has deleted every callback: the non-callbacks, in order. */
  function Props(d: seq<Entry>): (r: seq<Entry>)
    ensures |r| <= |d|
    decreases |d|
  {
    if d == [] then []
    else
      var last := d[|d| - 1];
      Props(d[..|d| - 1]) + (if IsFunction(last.1) then [] else [last])
  }

  /** The `listeners` object the loop builds, one assignment per callback, in key order. */
  function Listeners(d: seq<Entry>): (r: seq<Entry>)
    ensures UniqueKeys(r)
    decreases |d|
  {
    if d == [] then []
    else
      var last := d[|d| - 1];
      var l := Listeners(d[..|d| - 1]);
      if IsFunction(last.1) then PutUnique(l, KebabKey(last.0), last.1); Put(l, KebabKey(last.0), last.1) else l
  }

  /** The props are exactly the descriptor's entries whose value is not a function. */
  lemma {:induction false} PropsMembers(d: seq<Entry>)
    ensures forall e :: e in Props(d) <==> e in d && !IsFunction(e.1)
    decreases |d|
  {
    if d != [] {
      var front := d[..|d| - 1];
      PropsMembers(front);
      assert d == front + [d[|d| - 1]];
    }
  }

  /** Every listener is a callback of the descriptor, bound under its key's kebab form. */
  lemma {:induction false} ListenersMembers(d: seq<Entry>)
    ensures forall e :: e in Listeners(d) ==> IsFunction(e.1) && exists k :: (k, e.1) in d && KebabKey(k) == e.0
    decreases |d|
  {
    if d != [] {
      var front := d[..|d| - 1];
      var last := d[|d| - 1];
      ListenersMembers(front);
      assert d == front + [last];
      if IsFunction(last.1) {
        PutMembers(Listeners(front), KebabKey(last.0), last.1);
        assert last in d;
      }
    }
  }

  /** Kebab-casing does not merge two callback keys of `d`. */
  ghost predicate NoListenerClash(d: seq<Entry>)
  {
    forall i, j :: 0 <= i < j < |d| && IsFunction(d[i].1) && IsFunction(d[j].1) ==>
      KebabKey(d[i].0) != KebabKey(d[j].0)
  }

  lemma PropsUnique(d: seq<Entry>)
    requires UniqueKeys(d)
    ensures UniqueKeys(Props(d))
  {
    var r := Props(d);
    forall i, j | 0 <= i < j < |r| ensures r[i].0 != r[j].0 {
      SubsequenceOrder(d, i, j);
    }
  }

  /** `Props(d)` is a subsequence of `d`: its entries keep their relative order. */
  lemma {:induction false} SubsequenceOrder(d: seq<Entry>, i: nat, j: nat)
    requires UniqueKeys(d) && i < j < |Props(d)|
    ensures exists a, b :: 0 <= a < b < |d| && d[a] == Props(d)[i] && d[b] == Props(d)[j]
    decreases |d|
  {
    var front := d[..|d| - 1];
    var last := d[|d| - 1];
    assert UniqueKeys(front);
    PropsMembers(front);
    if j < |Props(front)| {
      SubsequenceOrder(front, i, j);
      var a, b :| 0 <= a < b < |front| && front[a] == Props(front)[i] && front[b] == Props(front)[j];
      assert d[a] == front[a] && d[b] == front[b];
    } else {
      assert Props(d)[j] == last;
      assert Props(d)[i] == Props(front)[i];
      assert Props(front)[i] in front;
      var a :| 0 <= a < |front| && front[a] == Props(front)[i];
      assert d[a] == front[a];
    }
  }

  /** A key of an object with unique keys looks up to the value stored with it. */
  lemma LookupUnique(d: seq<Entry>, i: nat)
    requires UniqueKeys(d) && i < |d|
    ensures Lookup(d, d[i].0) == Some(d[i].1)
    decreases |d|
  {
    if i > 0 {
      LookupUnique(d[1..], i - 1);
    }
  }

  /**
   * Every non-callback property keeps its value among the props; a callback
   * property is absent from them.
   */
  lemma PropsLookup(d: seq<Entry>, k: string)
    requires UniqueKeys(d)
    ensures Lookup(d, k).Some? && !IsFunction(Lookup(d, k).value) ==> Lookup(Props(d), k) == Lookup(d, k)
    ensures Lookup(d, k).Some? && IsFunction(Lookup(d, k).value) ==> Lookup(Props(d), k).None?
    ensures Lookup(d, k).None? ==> Lookup(Props(d), k).None?
  {
    PropsUnique(d);
    PropsMembers(d);
    var r := Props(d);
    if Lookup(r, k).Some? {
      var v := Lookup(r, k).value;
      assert (k, v) in d;
      var i :| 0 <= i < |d| && d[i] == (k, v);
      LookupUnique(d, i);
    }
    if Lookup(d, k).Some? && !IsFunction(Lookup(d, k).value) {
      assert (k, Lookup(d, k).value) in r;
      var i :| 0 <= i < |r| && r[i] == (k, Lookup(d, k).value);
      LookupUnique(r, i);
    }
  }

  /**
   * With no two callbacks clashing after kebab-casing, every callback `k: f`
   * is bound as the listener `KebabKey(k): f`.
   */
  lemma {:induction false} ListenersLookup(d: seq<Entry>, i: nat)
    requires NoListenerClash(d) && i < |d| && IsFunction(d[i].1)
    ensures Lookup(Listeners(d), KebabKey(d[i].0)) == Some(d[i].1)
    decreases |d|
  {
    var front := d[..|d| - 1];
    var last := d[|d| - 1];
    if i < |d| - 1 {
      assert front[i] == d[i];
      assert NoListenerClash(front);
      ListenersLookup(front, i);
      if IsFunction(last.1) {
        assert KebabKey(last.0) != KebabKey(d[i].0);
        PutLookup(Listeners(front), KebabKey(last.0), last.1, KebabKey(d[i].0));
      }
    } else {
      PutLookup(Listeners(front), KebabKey(last.0), last.1, KebabKey(d[i].0));
    }
  }

  /**
   * Without clashes nothing is lost: each property of the descriptor is
   * either a prop or a listener, never both, so the counts add up.
   */
  lemma {:induction false} SplitSizes(d: seq<Entry>)
    requires NoListenerClash(d)
    ensures |Props(d)| + |Listeners(d)| == |d|
    decreases |d|
  {
    if d != [] {
      var front := d[..|d| - 1];
      var last := d[|d| - 1];
      assert NoListenerClash(front);
      SplitSizes(front);
      if IsFunction(last.1) {
        FreshListenerKey(d);
      }
    }
  }

  /** Without clashes, the last callback's kebab key is not yet bound by the ones before it. */
  lemma FreshListenerKey(d: seq<Entry>)
    requires NoListenerClash(d) && d != [] && IsFunction(d[|d| - 1].1)
    ensures KebabKey(d[|d| - 1].0) !in Keys(Listeners(d[..|d| - 1]))
  {
    var front := d[..|d| - 1];
    var key := KebabKey(d[|d| - 1].0);
    var l := Listeners(front);
    ListenersMembers(front);
    forall n | 0 <= n < |l| ensures Keys(l)[n] != key {
      KeysAt(l, n);
      assert l[n] in l;
      var k :| (k, l[n].1) in front && KebabKey(k) == l[n].0;
      var j :| 0 <= j < |front| && front[j] == (k, l[n].1);
      assert d[j] == front[j];
    }
  }

  /** Two callbacks whose keys kebab-case alike give one listener: the later one wins. */
  lemma ListenerClashExample()
    ensures Listeners([("aB", Callback(1)), ("a-b", Callback(2))]) == [("a-b", Callback(2))]
  {
    var d := [("aB", Callback(1)), ("a-b", Callback(2))];
    assert d[..1] == [("aB", Callback(1))];
    assert d[..1][..0] == [];
    assert FirstBoundaryFrom("aB", 0) == Some(0);
    assert KebabKey("aB") == "a-b";
    assert FirstBoundaryFrom("a-b", 0) == None;
  }

  /** The root instance's reactive state; the transition descriptor starts out null. */
  class Root {
    var transition: Option<JsObject>

    constructor ()
      ensures transition == None
    {
      transition := None;
    }

    /** The setter the layouts call: the descriptor is replaced wholesale, never merged. */
    method SetTransition(t: Option<JsObject>)
      modifies this
      ensures transition == t
    {
      transition := t;
    }

    /**
     * The split at the top of `render`. It has no `modifies` clause: the
     * descriptor is copied, and only the copy loses its callbacks.
     */
    method Render() returns (props: seq<Entry>, listeners: seq<Entry>)
      ensures props == Props(Own(transition))
      ensures listeners == Listeners(Own(transition))
    {
      var d := Own(transition);
      var copy: seq<Entry> := d;
      listeners := [];
      var keys := Keys(copy);
      var i := 0;
      while i < |keys|
        invariant 0 <= i <= |d| && keys == Keys(d)
        invariant copy == Props(d[..i]) + d[i..]
        invariant listeners == Listeners(d[..i])
      {
        var key := keys[i];
        KeysAt(d, i);
        RenderStep(d, i, copy, listeners);
        var v := Lookup(copy, key);
        if v.Some? && IsFunction(v.value) {
          listeners := Put(listeners, KebabKey(key), v.value);
          copy := Delete(copy, key);
        }
        i := i + 1;
      }
      assert i == |d|;
      assert d[..i] == d && d[i..] == [];
      assert copy == Props(d) + [];
      props := copy;
    }
  }

  /** The properties the loop has already passed, and those still ahead, do not have the key it is at. */
  lemma PassedKeysDiffer(d: seq<Entry>, i: nat)
    requires UniqueKeys(d) && i < |d|
    ensures d[i].0 !in Keys(Props(d[..i]))
    ensures d[i].0 !in Keys(d[i + 1..])
  {
    var k := d[i].0;
    var a := Props(d[..i]);
    PropsMembers(d[..i]);
    forall n | 0 <= n < |a| ensures Keys(a)[n] != k {
      KeysAt(a, n);
      assert a[n] in d[..i];
    }
    var b := d[i + 1..];
    forall n | 0 <= n < |b| ensures Keys(b)[n] != k {
      KeysAt(b, n);
      assert b[n] == d[i + 1 + n];
    }
  }

  /** One turn of the render loop takes the copy and the listeners from `d[..i]` to `d[..i + 1]`. */
  lemma RenderStep(d: seq<Entry>, i: nat, copy: seq<Entry>, listeners: seq<Entry>)
    requires UniqueKeys(d) && i < |d|
    requires copy == Props(d[..i]) + d[i..] && listeners == Listeners(d[..i])
    ensures Lookup(copy, d[i].0) == Some(d[i].1)
    ensures IsFunction(d[i].1) ==>
              && Delete(copy, d[i].0) == Props(d[..i + 1]) + d[i + 1..]
              && Put(listeners, KebabKey(d[i].0), d[i].1) == Listeners(d[..i + 1])
    ensures !IsFunction(d[i].1) ==>
              && copy == Props(d[..i + 1]) + d[i + 1..]
              && listeners == Listeners(d[..i + 1])
  {
    StepLookup(d, i);
    ListenersStep(d, i);
    if IsFunction(d[i].1) {
      PassedKeysDiffer(d, i);
      DeleteCallback(d, i);
    } else {
      KeepPlain(d, i);
    }
  }

  lemma StepLookup(d: seq<Entry>, i: nat)
    requires UniqueKeys(d) && i < |d|
    ensures Lookup(Props(d[..i]) + d[i..], d[i].0) == Some(d[i].1)
  {
    PassedKeysDiffer(d, i);
    LookupAfter(Props(d[..i]), d[i..], d[i].0);
  }

  lemma KeepPlain(d: seq<Entry>, i: nat)
    requires i < |d| && !IsFunction(d[i].1)
    ensures Props(d[..i]) + d[i..] == Props(d[..i + 1]) + d[i + 1..]
  {
    PropsStep(d, i);
    assert d[i..] == [d[i]] + d[i + 1..];
    assert Props(d[..i]) + d[i..] == (Props(d[..i]) + [d[i]]) + d[i + 1..];
  }

  /** How the props extend by one property. */
  lemma PropsStep(d: seq<Entry>, i: nat)
    requires i < |d|
    ensures Props(d[..i + 1]) == Props(d[..i]) + (if IsFunction(d[i].1) then [] else [d[i]])
  {
    assert d[..i + 1][..i] == d[..i];
  }

  /** How the listeners extend by one property. */
  lemma ListenersStep(d: seq<Entry>, i: nat)
    requires i < |d|
    ensures Listeners(d[..i + 1]) ==
              if IsFunction(d[i].1) then Put(Listeners(d[..i]), KebabKey(d[i].0), d[i].1) else Listeners(d[..i])
  {
    assert d[..i + 1][..i] == d[..i];
  }

  lemma DeleteCallback(d: seq<Entry>, i: nat)
    requires i < |d| && IsFunction(d[i].1)
    requires d[i].0 !in Keys(Props(d[..i])) && d[i].0 !in Keys(d[i + 1..])
    ensures Delete(Props(d[..i]) + d[i..], d[i].0) == Props(d[..i + 1]) + d[i + 1..]
  {
    var a := Props(d[..i]);
    assert d[i..][1..] == d[i + 1..];
    DeleteFirstOf(a, d[i..]);
    PropsStep(d, i);
    assert Props(d[..i + 1]) == a + [];
  }

  /** Deleting the key of `r`'s first property from `a + r`, that key occurring nowhere else. */
  lemma DeleteFirstOf(a: seq<Entry>, r: seq<Entry>)
    requires r != [] && r[0].0 !in Keys(a) && r[0].0 !in Keys(r[1..])
    ensures Delete(a + r, r[0].0) == a + r[1..]
  {
    var k := r[0].0;
    DeleteAppend(a, r, k);
    DeleteAbsent(a, k);
    DeleteAbsent(r[1..], k);
    assert Delete(r, k) == [] + Delete(r[1..], k);
    assert [] + r[1..] == r[1..];
    assert Delete(r, k) == r[1..];
  }

  lemma {:induction false} LookupAfter(a: seq<Entry>, b: seq<Entry>, k: string)
    requires k !in Keys(a)
    requires |b| > 0 && b[0].0 == k
    ensures Lookup(a + b, k) == Some(b[0].1)
    decreases |a|
  {
    if a == [] {
      assert a + b == b;
    } else {
      assert Keys(a) == [a[0].0] + Keys(a[1..]);
      assert (a + b)[1..] == a[1..] + b;
      LookupAfter(a[1..], b, k);
    }
  }

  lemma {:induction false} DeleteAppend(a: seq<Entry>, b: seq<Entry>, k: string)
    ensures Delete(a + b, k) == Delete(a, k) + Delete(b, k)
    decreases |a|
  {
    if a == [] {
      assert a + b == b;
    } else {
      assert (a + b)[1..] == a[1..] + b;
      DeleteAppend(a[1..], b, k);
    }
  }

  lemma {:induction false} DeleteAbsent(a: seq<Entry>, k: string)
    requires k !in Keys(a)
    ensures Delete(a, k) == a
    decreases |a|
  {
    if a != [] {
      assert Keys(a) == [a[0].0] + Keys(a[1..]);
      DeleteAbsent(a[1..], k);
    }
  }

  /**
   * Setting a descriptor and rendering twice gives the same split both times;
   * the descriptor itself keeps its callbacks.
   */
  method RenderTwice(f: nat) returns (props1: seq<Entry>, listeners1: seq<Entry>,
                                     props2: seq<Entry>, listeners2: seq<Entry>,
                                     kept: Option<JsObject>)
    ensures props1 == props2 == [("name", Str("fade"))]
    ensures listeners1 == listeners2 == [("before-enter", Callback(f))]
    ensures kept == Some([("name", Str("fade")), ("beforeEnter", Callback(f))])
  {
    var root := new Root();
    var d: JsObject := [("name", Str("fade")), ("beforeEnter", Callback(f))];
    root.SetTransition(Some(d));
    props1, listeners1 := root.Render();
    props2, listeners2 := root.Render();
    FadeSplit(f);
    assert props1 == props2 == [("name", Str("fade"))];
    assert listeners1 == listeners2 == [("before-enter", Callback(f))];
    kept := root.transition;
  }

  /** `{name: 'fade', beforeEnter: f}` splits into the prop `name` and the listener `before-enter`. */
  lemma FadeSplit(f: nat)
    ensures Props([("name", Str("fade")), ("beforeEnter", Callback(f))]) == [("name", Str("fade"))]
    ensures Listeners([("name", Str("fade")), ("beforeEnter", Callback(f))]) == [("before-enter", Callback(f))]
  {
    var d := [("name", Str("fade")), ("beforeEnter", Callback(f))];
    PropsStep(d, 0);
    PropsStep(d, 1);
    ListenersStep(d, 0);
    ListenersStep(d, 1);
    assert d[..0] == [] && d[..2] == d;
    KebabKeyBeforeEnter();
    assert Put([], "before-enter", Callback(f)) == [("before-enter", Callback(f))];
  }
}
