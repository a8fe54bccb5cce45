/**
 * The part of the WHATWG `URLSearchParams` object the tags page uses: an
 * ordered list of name/value entries read with `get` and written with `set`.
 *
 * `get(name)` answers the value of the first entry with that name, or nothing.
 * `set(name, value)` gives the first entry with that name the new value and
 * removes every later entry with that name; when there is none it appends
 * `(name, value)` at the end. Entries under other names keep their values and
 * their order.
 */
module SearchParams {
  import opened Wrappers

  type Entries = seq<(string, string)>

  predicate HasName(e: Entries, name: string)
  {
    exists i :: 0 <= i < |e| && e[i].0 == name
  }

  /** The value of the first entry named `name`. */
  function Lookup(e: Entries, name: string): (r: Option<string>)
    ensures r.None? <==> !HasName(e, name)
    ensures r.Some? ==> (name, r.value) in e
  {
    if e == [] then None
    else if e[0].0 == name then Some(e[0].1)
    else
      assert forall i :: 1 <= i < |e| ==> e[i] == e[1..][i - 1];
      Lookup(e[1..], name)
  }

  /** `get` answers the value of the first entry under the name. */
  lemma {:induction false} LookupFirst(e: Entries, name: string, i: nat)
    requires i < |e| && e[i].0 == name
    requires forall j :: 0 <= j < i ==> e[j].0 != name
    ensures Lookup(e, name) == Some(e[i].1)
  {
    if i > 0 {
      assert e[0].0 != name;
      forall j | 0 <= j < i - 1 ensures e[1..][j].0 != name {
        assert e[1..][j] == e[j + 1];
      }
      LookupFirst(e[1..], name, i - 1);
    }
  }

  /** The entries whose name is not `name`, in their order. */
  function Without(e: Entries, name: string): (r: Entries)
    ensures !HasName(r, name)
    ensures |r| <= |e|
  {
    if e == [] then []
    else if e[0].0 == name then Without(e[1..], name)
    else [e[0]] + Without(e[1..], name)
  }

  /** The first entry named `name` takes `value`; the later ones are dropped. */
  function ReplaceFirst(e: Entries, name: string, value: string): Entries
  {
    if e == [] then []
    else if e[0].0 == name then [(name, value)] + Without(e[1..], name)
    else [e[0]] + ReplaceFirst(e[1..], name, value)
  }

  /** `set(name, value)` applied to the entries `e`. */
  function Update(e: Entries, name: string, value: string): Entries
  {
    if HasName(e, name) then ReplaceFirst(e, name, value) else e + [(name, value)]
  }

  /** The number of entries named `name`. */
  function Count(e: Entries, name: string): nat
  {
    if e == [] then 0 else (if e[0].0 == name then 1 else 0) + Count(e[1..], name)
  }

  lemma {:induction false} CountWithout(e: Entries, name: string)
    ensures Count(Without(e, name), name) == 0
  {
    if e != [] {
      CountWithout(e[1..], name);
    }
  }

  lemma {:induction false} CountAppend(a: Entries, b: Entries, name: string)
    ensures Count(a + b, name) == Count(a, name) + Count(b, name)
  {
    if a != [] {
      assert (a + b)[1..] == a[1..] + b;
      CountAppend(a[1..], b, name);
    } else {
      assert a + b == b;
    }
  }

  lemma {:induction false} LookupWithout(e: Entries, name: string, other: string)
    requires other != name
    ensures Lookup(Without(e, name), other) == Lookup(e, other)
  {
    if e != [] {
      LookupWithout(e[1..], name, other);
    }
  }

  lemma {:induction false} WithoutTwice(e: Entries, name: string)
    ensures Without(Without(e, name), name) == Without(e, name)
  {
    if e != [] {
      WithoutTwice(e[1..], name);
    }
  }

  lemma {:induction false} WithoutAppend(a: Entries, b: Entries, name: string)
    ensures Without(a + b, name) == Without(a, name) + Without(b, name)
  {
    if a != [] {
      assert (a + b)[1..] == a[1..] + b;
      WithoutAppend(a[1..], b, name);
    } else {
      assert a + b == b;
    }
  }

  lemma {:induction false} WithoutCommutes(e: Entries, a: string, b: string)
    ensures Without(Without(e, a), b) == Without(Without(e, b), a)
  {
    if e != [] {
      WithoutCommutes(e[1..], a, b);
    }
  }

  lemma {:induction false} ReplaceFirstFacts(e: Entries, name: string, value: string)
    requires HasName(e, name)
    ensures Lookup(ReplaceFirst(e, name, value), name) == Some(value)
    ensures Count(ReplaceFirst(e, name, value), name) == 1
    ensures Without(ReplaceFirst(e, name, value), name) == Without(e, name)
    ensures forall other :: other != name ==>
      Lookup(ReplaceFirst(e, name, value), other) == Lookup(e, other)
  {
    if e[0].0 == name {
      CountWithout(e[1..], name);
      WithoutTwice(e[1..], name);
      forall other | other != name
        ensures Lookup(ReplaceFirst(e, name, value), other) == Lookup(e, other)
      {
        LookupWithout(e[1..], name, other);
      }
    } else {
      assert HasName(e[1..], name) by {
        var i :| 0 <= i < |e| && e[i].0 == name;
        assert e[1..][i - 1] == e[i];
      }
      ReplaceFirstFacts(e[1..], name, value);
    }
  }

  lemma {:induction false} ReplaceFirstTwice(e: Entries, name: string, value: string)
    requires HasName(e, name)
    ensures HasName(ReplaceFirst(e, name, value), name)
    ensures ReplaceFirst(ReplaceFirst(e, name, value), name, value) == ReplaceFirst(e, name, value)
  {
    if e[0].0 == name {
      assert ReplaceFirst(e, name, value)[0] == (name, value);
      WithoutTwice(e[1..], name);
    } else {
      assert HasName(e[1..], name) by {
        var i :| 0 <= i < |e| && e[i].0 == name;
        assert e[1..][i - 1] == e[i];
      }
      ReplaceFirstTwice(e[1..], name, value);
      var r := ReplaceFirst(e[1..], name, value);
      var i :| 0 <= i < |r| && r[i].0 == name;
      assert ([e[0]] + r)[i + 1] == r[i];
    }
  }

  /** After `set(name, value)`, `get(name)` answers `value`. */
  lemma UpdateLookup(e: Entries, name: string, value: string)
    ensures Lookup(Update(e, name, value), name) == Some(value)
  {
    if HasName(e, name) {
      ReplaceFirstFacts(e, name, value);
    } else {
      AppendLookup(e, name, value, name);
    }
  }

  /** After `set(name, value)` exactly one entry is named `name`. */
  lemma UpdateCount(e: Entries, name: string, value: string)
    ensures Count(Update(e, name, value), name) == 1
  {
    if HasName(e, name) {
      ReplaceFirstFacts(e, name, value);
    } else {
      CountAppend(e, [(name, value)], name);
      CountAbsent(e, name);
    }
  }

  /** `set(name, …)` leaves every entry under another name, with its order. */
  lemma UpdateFrame(e: Entries, name: string, value: string)
    ensures Without(Update(e, name, value), name) == Without(e, name)
  {
    if HasName(e, name) {
      ReplaceFirstFacts(e, name, value);
    } else {
      WithoutAppend(e, [(name, value)], name);
    }
  }

  /** `set(name, …)` does not change what `get` answers for another name. */
  lemma UpdateLookupOther(e: Entries, name: string, value: string, other: string)
    requires other != name
    ensures Lookup(Update(e, name, value), other) == Lookup(e, other)
  {
    if HasName(e, name) {
      ReplaceFirstFacts(e, name, value);
    } else {
      AppendLookup(e, name, value, other);
    }
  }

  /** Setting the same value twice is setting it once. */
  lemma UpdateIdempotent(e: Entries, name: string, value: string)
    ensures Update(Update(e, name, value), name, value) == Update(e, name, value)
  {
    if HasName(e, name) {
      ReplaceFirstTwice(e, name, value);
    } else {
      var u := e + [(name, value)];
      assert u[|e|] == (name, value);
      AppendReplaceFirst(e, name, value);
    }
  }

  lemma {:induction false} CountAbsent(e: Entries, name: string)
    requires !HasName(e, name)
    ensures Count(e, name) == 0
  {
    if e != [] {
      assert !HasName(e[1..], name) by {
        forall i | 0 <= i < |e[1..]| ensures e[1..][i].0 != name {
          assert e[1..][i] == e[i + 1];
        }
      }
      CountAbsent(e[1..], name);
    }
  }

  lemma {:induction false} AppendLookup(e: Entries, name: string, value: string, key: string)
    requires !HasName(e, name)
    ensures Lookup(e + [(name, value)], key) == if key == name then Some(value) else Lookup(e, key)
  {
    if e != [] {
      assert (e + [(name, value)])[1..] == e[1..] + [(name, value)];
      assert !HasName(e[1..], name) by {
        forall i | 0 <= i < |e[1..]| ensures e[1..][i].0 != name {
          assert e[1..][i] == e[i + 1];
        }
      }
      AppendLookup(e[1..], name, value, key);
    }
  }

  lemma {:induction false} AppendReplaceFirst(e: Entries, name: string, value: string)
    requires !HasName(e, name)
    ensures ReplaceFirst(e + [(name, value)], name, value) == e + [(name, value)]
  {
    if e == [] {
      assert Without([], name) == [];
    } else {
      assert (e + [(name, value)])[1..] == e[1..] + [(name, value)];
      assert !HasName(e[1..], name) by {
        forall i | 0 <= i < |e[1..]| ensures e[1..][i].0 != name {
          assert e[1..][i] == e[i + 1];
        }
      }
      AppendReplaceFirst(e[1..], name, value);
    }
  }

  lemma {:induction false} WithoutAbsent(e: Entries, name: string)
    requires Count(e, name) == 0
    ensures Without(e, name) == e
  {
    if e != [] {
      WithoutAbsent(e[1..], name);
    }
  }

  lemma {:induction false} CountWithoutOther(e: Entries, name: string, other: string)
    requires other != name
    ensures Count(Without(e, name), other) == Count(e, other)
  {
    if e != [] {
      CountWithoutOther(e[1..], name, other);
    }
  }

  /** `set(name, …)` does not change how many entries another name has. */
  lemma UpdateCountOther(e: Entries, name: string, value: string, other: string)
    requires other != name
    ensures Count(Update(e, name, value), other) == Count(e, other)
  {
    UpdateFrame(e, name, value);
    CountWithoutOther(Update(e, name, value), name, other);
    CountWithoutOther(e, name, other);
  }

  /** Setting the value a name already has, when it is the only entry under
      that name, changes nothing. */
  lemma {:induction false} UpdateUnchanged(e: Entries, name: string, value: string)
    requires Count(e, name) == 1 && Lookup(e, name) == Some(value)
    ensures Update(e, name, value) == e
  {
    assert HasName(e, name);
    ReplaceFirstUnchanged(e, name, value);
  }

  lemma {:induction false} ReplaceFirstUnchanged(e: Entries, name: string, value: string)
    requires Count(e, name) == 1 && Lookup(e, name) == Some(value)
    ensures ReplaceFirst(e, name, value) == e
  {
    if e[0].0 == name {
      WithoutAbsent(e[1..], name);
    } else {
      ReplaceFirstUnchanged(e[1..], name, value);
    }
  }

  /** A `URLSearchParams` object: its entries change in place. */
  class Params {
    var entries: Entries

    constructor(init: Entries)
      ensures entries == init
    {
      entries := init;
    }

    /** `get(name)`. */
    method Get(name: string) returns (r: Option<string>)
      ensures r == Lookup(entries, name)
      ensures r.None? <==> !HasName(entries, name)
    {
      r := Lookup(entries, name);
    }

    /** `set(name, value)`. */
    method Set(name: string, value: string)
      modifies this
      ensures entries == Update(old(entries), name, value)
      ensures Lookup(entries, name) == Some(value)
      ensures Without(entries, name) == Without(old(entries), name)
    {
      UpdateLookup(entries, name, value);
      UpdateFrame(entries, name, value);
      entries := Update(entries, name, value);
    }
  }
}
