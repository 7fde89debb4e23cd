/** The attendance record: date keys mapped to on-site flags. Each flag is the
    JavaScript truthiness of the stored value, which is all that toggling and
    counting look at. */
module Attendance {

  type Record = map<string, bool>

  /** Truthiness of `data[date]`; a key that is absent reads as `undefined`,
      which is falsy. */
  predicate IsOnsite(r: Record, date: string)
  {
    date in r && r[date]
  }

  /** The keys whose value is truthy. */
  function OnsiteKeys(r: Record): (s: set<string>)
    ensures s <= r.Keys
    ensures forall k :: k in s <==> IsOnsite(r, k)
  {
    set k | k in r && r[k]
  }

  /** A subset is no larger than the set containing it. */
  lemma {:induction false} SubsetCardinality(a: set<string>, b: set<string>)
    requires a <= b
    ensures |a| <= |b|
    decreases |b|
  {
    if a != {} {
      var x :| x in a;
      SubsetCardinality(a - {x}, b - {x});
    }
  }

  /** The on-site total: the number of entries of the whole record whose value
      is truthy (not only those of the displayed month). */
  function TotalOnsite(r: Record): (n: nat)
    ensures n <= |r|
    ensures n == 0 <==> forall k :: k in r ==> !r[k]
  {
    SubsetCardinality(OnsiteKeys(r), r.Keys);
    var s := OnsiteKeys(r);
    assert s != {} ==> exists k :: k in r && r[k] by {
      if s != {} {
        var k :| k in s;
        assert k in r && r[k];
      }
    }
    assert s == {} ==> forall k :: k in r ==> !r[k] by {
      if s == {} {
        forall k | k in r ensures !r[k] {
          assert IsOnsite(r, k) ==> k in s;
        }
      }
    }
    |s|
  }

  /** The record after `data[date] = !data[date]`. */
  function Toggled(r: Record, date: string): (r': Record)
    ensures r'.Keys == r.Keys + {date}
    ensures date in r' && r'[date] == !IsOnsite(r, date)
    ensures forall k :: k in r && k != date ==> r'[k] == r[k]
  {
    r[date := !IsOnsite(r, date)]
  }

  /** Toggling twice restores the flag; a key that was absent stays present,
      with value false, and nothing else differs from the original record. */
  lemma ToggleTwice(r: Record, date: string)
    ensures IsOnsite(Toggled(Toggled(r, date), date), date) == IsOnsite(r, date)
    ensures Toggled(Toggled(r, date), date) == r[date := IsOnsite(r, date)]
    ensures date !in r ==> Toggled(Toggled(r, date), date) == r[date := false]
    ensures date in r ==> Toggled(Toggled(r, date), date) == r
  {
  }

  /** One toggle removes the day from the on-site days if it was on-site, and
      adds it otherwise. */
  lemma OnsiteKeysToggled(r: Record, date: string)
    ensures OnsiteKeys(Toggled(r, date)) == if IsOnsite(r, date) then OnsiteKeys(r) - {date} else OnsiteKeys(r) + {date}
  {
  }

  /** One toggle moves the total by exactly one: down if the day was on-site,
      up if it was not. */
  lemma ToggleTotal(r: Record, date: string)
    ensures TotalOnsite(Toggled(r, date)) == if IsOnsite(r, date) then TotalOnsite(r) - 1 else TotalOnsite(r) + 1
  {
    OnsiteKeysToggled(r, date);
    var before := OnsiteKeys(r);
    if IsOnsite(r, date) {
      assert before == (before - {date}) + {date};
    }
  }

  /** The empty record, the fallback of a failed load, has total 0. */
  lemma EmptyTotal()
    ensures TotalOnsite(map[]) == 0
  {
  }

  // The source computes the total as `Object.values(data).filter((v) => v).length`:
  // the values in the host's property order, filtered by truthiness. The lemma
  // below shows the order does not matter.

  /** `values.filter((v) => v).length`. */
  function CountTruthy(values: seq<bool>): (n: nat)
    ensures n <= |values|
  {
    if values == [] then 0 else (if values[0] then 1 else 0) + CountTruthy(values[1..])
  }

  /** The values of the record in the order of `keys`. */
  function ValuesAt(r: Record, keys: seq<string>): (values: seq<bool>)
    requires forall i :: 0 <= i < |keys| ==> keys[i] in r
    ensures |values| == |keys|
    ensures forall i :: 0 <= i < |keys| ==> values[i] == r[keys[i]]
  {
    if keys == [] then [] else [r[keys[0]]] + ValuesAt(r, keys[1..])
  }

  predicate Distinct(keys: seq<string>)
  {
    forall i, j :: 0 <= i < j < |keys| ==> keys[i] != keys[j]
  }

  /** The on-site keys among `keys`. */
  function OnsiteAmong(r: Record, keys: seq<string>): set<string>
  {
    set k | k in keys && IsOnsite(r, k)
  }

  /** Taking the first key off a repetition-free enumeration takes it off the
      on-site keys among them too, if it was on-site. */
  lemma OnsiteAmongCons(r: Record, keys: seq<string>)
    requires keys != [] && Distinct(keys)
    ensures keys[0] !in OnsiteAmong(r, keys[1..])
    ensures OnsiteAmong(r, keys) == if IsOnsite(r, keys[0]) then OnsiteAmong(r, keys[1..]) + {keys[0]} else OnsiteAmong(r, keys[1..])
  {
  }

  lemma {:induction false} CountTruthyOfKeys(r: Record, keys: seq<string>)
    requires forall i :: 0 <= i < |keys| ==> keys[i] in r
    requires Distinct(keys)
    ensures CountTruthy(ValuesAt(r, keys)) == |OnsiteAmong(r, keys)|
    decreases |keys|
  {
    if keys != [] {
      var rest := keys[1..];
      CountTruthyOfKeys(r, rest);
      assert ValuesAt(r, keys)[1..] == ValuesAt(r, rest);
      OnsiteAmongCons(r, keys);
    }
  }

  /** For every enumeration of the record's keys without repetition, the
      filtered length is the on-site total. */
  lemma FilterLengthIsTotal(r: Record, keys: seq<string>)
    requires Distinct(keys)
    requires forall k :: k in r <==> k in keys
    ensures CountTruthy(ValuesAt(r, keys)) == TotalOnsite(r)
  {
    CountTruthyOfKeys(r, keys);
    assert OnsiteAmong(r, keys) == OnsiteKeys(r);
  }
}
