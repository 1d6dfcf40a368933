/** The part of `URLSearchParams` (WHATWG URL Standard, section 6.2) that the referer
    builder uses: an ordered list of name-value pairs and its `set` operation. */
module UrlParams {
  import opened Js
  import opened Remote

  /** The list without any pair named `name`. */
  function RemoveName(l: Query, name: string): (r: Query)
    ensures forall k :: 0 <= k < |r| ==> r[k].0 != name
    ensures forall p :: p in r <==> p in l && p.0 != name
  {
    if l == [] then []
    else if l[0].0 == name then RemoveName(l[1..], name)
    else [l[0]] + RemoveName(l[1..], name)
  }

  /** `set(name, value)`: the first pair named `name` takes the new value and the other
      pairs of that name go; with no such pair, the new pair is appended. */
  function SetParam(l: Query, name: string, value: string): (r: Query)
    ensures (name, value) in r
  {
    if l == [] then [(name, value)]
    else if l[0].0 == name then [(name, value)] + RemoveName(l[1..], name)
    else [l[0]] + SetParam(l[1..], name, value)
  }

  /** `get(name)`: the value of the first pair named `name`. */
  function Lookup(l: Query, name: string): (r: Option<string>)
    ensures r.None? <==> forall k :: 0 <= k < |l| ==> l[k].0 != name
    ensures r.Some? ==> (name, r.value) in l
  {
    if l == [] then None
    else if l[0].0 == name then Some(l[0].1)
    else Lookup(l[1..], name)
  }

  /** No pair of the list is named `name`. */
  predicate NameAbsent(l: Query, name: string) {
    forall k :: 0 <= k < |l| ==> l[k].0 != name
  }

  /** No name occurs twice: each pair's name is absent from the pairs after it. */
  predicate DistinctNames(l: Query)
    decreases |l|
  {
    l != [] ==> NameAbsent(l[1..], l[0].0) && DistinctNames(l[1..])
  }

  lemma {:induction false} LookupRemoveName(l: Query, name: string, other: string)
    ensures Lookup(RemoveName(l, name), other) == if other == name then None else Lookup(l, other)
    decreases |l|
  {
    if l != [] {
      LookupRemoveName(l[1..], name, other);
    }
  }

  /** After `set(name, value)`, `get(name)` is `value` and every other name reads as
      before. */
  lemma {:induction false} SetParamLookup(l: Query, name: string, value: string, other: string)
    ensures Lookup(SetParam(l, name, value), other) ==
      if other == name then Some(value) else Lookup(l, other)
    decreases |l|
  {
    if l != [] {
      if l[0].0 == name {
        LookupRemoveName(l[1..], name, other);
      } else {
        SetParamLookup(l[1..], name, value, other);
      }
    }
  }

  /** Setting a name the list does not hold appends the pair at the end. */
  lemma {:induction false} SetParamFresh(l: Query, name: string, value: string)
    requires forall k :: 0 <= k < |l| ==> l[k].0 != name
    ensures SetParam(l, name, value) == l + [(name, value)]
    decreases |l|
  {
    if l != [] {
      SetParamFresh(l[1..], name, value);
      assert [l[0]] + (l[1..] + [(name, value)]) == l + [(name, value)];
    }
  }

  /** Setting a name the list holds puts the new value at its first position and leaves
      the pairs before it alone. */
  lemma {:induction false} SetParamKeepsPosition(l: Query, name: string, value: string, k: nat)
    requires k < |l| && l[k].0 == name && forall j :: 0 <= j < k ==> l[j].0 != name
    ensures var r := SetParam(l, name, value);
      k < |r| && r[k] == (name, value) && r[..k] == l[..k]
    decreases k
  {
    if k > 0 {
      SetParamKeepsPosition(l[1..], name, value, k - 1);
      var r := SetParam(l, name, value);
      var t := SetParam(l[1..], name, value);
      assert r == [l[0]] + t;
      assert r[..k] == [l[0]] + t[..k - 1];
      assert l[..k] == [l[0]] + l[1..][..k - 1];
    }
  }

  /** Removing a name keeps the names distinct. */
  lemma {:induction false} RemoveNameDistinct(l: Query, name: string)
    requires DistinctNames(l)
    ensures DistinctNames(RemoveName(l, name))
    decreases |l|
  {
    if l != [] {
      RemoveNameDistinct(l[1..], name);
      if l[0].0 != name {
        var r := RemoveName(l[1..], name);
        forall k | 0 <= k < |r| ensures r[k].0 != l[0].0 {
          assert r[k] in r;
          var k' :| 0 <= k' < |l[1..]| && l[1..][k'] == r[k];
        }
        assert ([l[0]] + r)[1..] == r;
      }
    }
  }

  /** `set` leaves exactly one pair named `name`, carrying `value`, and keeps the names
      distinct. */
  lemma {:induction false} SetParamDistinct(l: Query, name: string, value: string)
    requires DistinctNames(l)
    ensures DistinctNames(SetParam(l, name, value))
    ensures (name, value) in SetParam(l, name, value)
    decreases |l|
  {
    var r := SetParam(l, name, value);
    if l == [] {
      assert r[1..] == [];
    } else if l[0].0 == name {
      RemoveNameDistinct(l[1..], name);
      assert r[1..] == RemoveName(l[1..], name);
    } else {
      SetParamDistinct(l[1..], name, value);
      var rest := SetParam(l[1..], name, value);
      assert r[1..] == rest;
      forall k | 0 <= k < |rest| ensures rest[k].0 != l[0].0 {
        assert rest[k] in rest;
        SetParamNames(l[1..], name, value, rest[k]);
        if rest[k].0 != name {
          var k' :| 0 <= k' < |l[1..]| && l[1..][k'] == rest[k];
        }
      }
    }
  }

  /** The pairs after `set`: the new pair and the old pairs of other names. */
  lemma {:induction false} SetParamNames(l: Query, name: string, value: string, p: (string, string))
    ensures p in SetParam(l, name, value) <==> p == (name, value) || (p in l && p.0 != name)
    decreases |l|
  {
    if l != [] && l[0].0 != name {
      SetParamNames(l[1..], name, value, p);
      assert p in l <==> p == l[0] || p in l[1..];
    } else if l != [] {
      assert p in l && p.0 != name <==> p in l[1..] && p.0 != name;
    }
  }

  /** One step of the pass `Set` makes: how the pair at `i` contributes. */
  lemma StepAt(l: Query, i: nat, name: string, value: string)
    requires i < |l|
    ensures forall out: Query ::
              out + RemoveName(l[i..], name) ==
              (if l[i].0 == name then out else out + [l[i]]) + RemoveName(l[i + 1..], name)
    ensures forall out: Query ::
              out + SetParam(l[i..], name, value) ==
              if l[i].0 == name then (out + [(name, value)]) + RemoveName(l[i + 1..], name)
              else (out + [l[i]]) + SetParam(l[i + 1..], name, value)
  {
    assert l[i..][0] == l[i] && l[i..][1..] == l[i + 1..];
  }

  /** A `URLSearchParams` object: its list is updated in place by `set`. */
  class SearchParams {
    var list: Query

    /** `new URL(href).searchParams` for an address without a query. */
    constructor ()
      ensures list == []
    {
      list := [];
    }

    /** `set(name, value)`: one pass over the list, as the standard describes it. */
    method Set(name: string, value: string)
      modifies this
      ensures list == SetParam(old(list), name, value)
    {
      var l := list;
      var out: Query := [];
      var found := false;
      var i := 0;
      while i < |l|
        invariant 0 <= i <= |l|
        invariant (if found then out + RemoveName(l[i..], name)
                   else out + SetParam(l[i..], name, value)) == SetParam(l, name, value)
      {
        StepAt(l, i, name, value);
        if l[i].0 == name {
          if !found {
            out := out + [(name, value)];
            found := true;
          }
        } else {
          out := out + [l[i]];
        }
        i := i + 1;
      }
      assert l[i..] == [];
      if !found {
        out := out + [(name, value)];
      } else {
        assert out + [] == out;
      }
      list := out;
    }
  }
}
