/** Ordered selection from a fixed key list. Both the CSS builder (over the
    style whitelist) and the HTML builder (over the attribute allowlist) walk a
    constant list of names and emit a `name`/`value` pair for each name that has
    a usable value, in list order. */
module Selection {
  import opened Wrappers

  /** One emitted pair: a CSS declaration or an HTML attribute. */
  datatype Entry = Entry(key: string, value: string)

  function Keys(es: seq<Entry>): (ks: seq<string>)
    ensures |ks| == |es|
    ensures forall i :: 0 <= i < |es| ==> ks[i] == es[i].key
  {
    if es == [] then [] else [es[0].key] + Keys(es[1..])
  }

  /** `a` occurs in `b` in the same order, possibly with gaps. */
  predicate IsSubsequence(a: seq<string>, b: seq<string>)
  {
    if a == [] then true
    else if b == [] then false
    else if a[0] == b[0] then IsSubsequence(a[1..], b[1..])
    else IsSubsequence(a, b[1..])
  }

  /** A subsequence stays one when the sequence it sits in grows at the front. */
  lemma {:induction false} SubsequencePrepend(a: seq<string>, x: string, b: seq<string>)
    requires IsSubsequence(a, b)
    ensures IsSubsequence(a, [x] + b)
    decreases |b|, 1
  {
    assert ([x] + b)[1..] == b;
    if a != [] && a[0] == x {
      SubsequenceDropFirst(a, b);
    }
  }

  /** Dropping the first element of a subsequence keeps it a subsequence. */
  lemma {:induction false} SubsequenceDropFirst(a: seq<string>, b: seq<string>)
    requires a != [] && IsSubsequence(a, b)
    ensures IsSubsequence(a[1..], b)
    decreases |b|, 0
  {
    if a[0] == b[0] {
      SubsequencePrepend(a[1..], b[0], b[1..]);
      assert [b[0]] + b[1..] == b;
    } else {
      SubsequenceDropFirst(a, b[1..]);
      SubsequencePrepend(a[1..], b[0], b[1..]);
      assert [b[0]] + b[1..] == b;
    }
  }

  /** The pairs for the keys of `keys` that `lookup` gives a value for, in key order. */
  function Select(keys: seq<string>, lookup: string -> Option<string>): seq<Entry>
  {
    if keys == [] then []
    else
      (match lookup(keys[0]) case Some(v) => [Entry(keys[0], v)] case None => [])
      + Select(keys[1..], lookup)
  }

  /** Nothing outside `keys` is emitted, and each pair carries its key's own value. */
  lemma {:induction false} SelectSound(keys: seq<string>, lookup: string -> Option<string>, i: nat)
    requires i < |Select(keys, lookup)|
    ensures Select(keys, lookup)[i].key in keys
    ensures lookup(Select(keys, lookup)[i].key) == Some(Select(keys, lookup)[i].value)
    decreases |keys|
  {
    var rest := Select(keys[1..], lookup);
    match lookup(keys[0])
    case Some(v) =>
      assert Select(keys, lookup) == [Entry(keys[0], v)] + rest;
      if i > 0 {
        SelectSound(keys[1..], lookup, i - 1);
      }
    case None =>
      assert Select(keys, lookup) == rest;
      SelectSound(keys[1..], lookup, i);
  }

  /** Every key that has a value is emitted. */
  lemma {:induction false} SelectComplete(keys: seq<string>, lookup: string -> Option<string>)
    ensures forall j :: 0 <= j < |keys| && lookup(keys[j]).Some? ==> keys[j] in Keys(Select(keys, lookup))
    decreases |keys|
  {
    if keys != [] {
      var rest := Select(keys[1..], lookup);
      var head := match lookup(keys[0]) case Some(v) => [Entry(keys[0], v)] case None => [];
      SelectComplete(keys[1..], lookup);
      assert Select(keys, lookup) == head + rest;
      KeysAppend(head, rest);
      forall j | 0 <= j < |keys| && lookup(keys[j]).Some?
        ensures keys[j] in Keys(head + rest)
      {
        if j > 0 {
          assert keys[j] == keys[1..][j - 1];
        }
      }
    }
  }

  /** A key of `keys` is emitted exactly when `lookup` gives it a value. */
  lemma SelectExact(keys: seq<string>, lookup: string -> Option<string>, k: string)
    requires k in keys
    ensures k in Keys(Select(keys, lookup)) <==> lookup(k).Some?
  {
    var r := Select(keys, lookup);
    if k in Keys(r) {
      var i :| 0 <= i < |r| && Keys(r)[i] == k;
      SelectSound(keys, lookup, i);
    } else {
      SelectComplete(keys, lookup);
      var j :| 0 <= j < |keys| && keys[j] == k;
    }
  }

  /** The emitted keys keep the order of `keys`. */
  lemma {:induction false} SelectOrdered(keys: seq<string>, lookup: string -> Option<string>)
    ensures IsSubsequence(Keys(Select(keys, lookup)), keys)
    decreases |keys|
  {
    if keys != [] {
      var rest := Select(keys[1..], lookup);
      var head := match lookup(keys[0]) case Some(v) => [Entry(keys[0], v)] case None => [];
      SelectOrdered(keys[1..], lookup);
      assert Select(keys, lookup) == head + rest;
      KeysAppend(head, rest);
      if head == [] {
        assert head + rest == rest;
        SubsequencePrepend(Keys(rest), keys[0], keys[1..]);
        assert [keys[0]] + keys[1..] == keys;
      } else {
        var ks := Keys(head + rest);
        assert ks[0] == keys[0];
        assert ks[1..] == Keys(rest);
      }
    }
  }

  lemma KeysAppend(a: seq<Entry>, b: seq<Entry>)
    ensures Keys(a + b) == Keys(a) + Keys(b)
  {
    assert forall i :: 0 <= i < |a| ==> (a + b)[i] == a[i];
    assert forall i :: |a| <= i < |a| + |b| ==> (a + b)[i] == b[i - |a|];
  }
}
