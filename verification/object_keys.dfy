/** The order in which `Object.entries` lists the own keys of a plain
    object: first the keys that are array indices (canonical decimal numbers
    below 2^32 - 1), by increasing value, then every other key in the order
    it was created. */
module ObjectKeys {
  import opened Strings

  predicate AllDigits(s: string) {
    forall i :: 0 <= i < |s| ==> IsDigit(s[i])
  }

  /** The number a string of digits denotes (0 for any other string). */
  function KeyValue(s: string): nat {
    if AllDigits(s) then DigitsValue(s) else 0
  }

  /** A key that names an array index: digits without a leading zero (or
      just "0") whose value is below 2^32 - 1. */
  predicate IsArrayIndex(s: string) {
    |s| > 0 && AllDigits(s) && (s[0] == '0' ==> |s| == 1) && DigitsValue(s) < 0xFFFF_FFFF
  }

  /** The array-index keys of `keys`, in their order. */
  function Indices(keys: seq<string>): (r: seq<string>)
    ensures forall x :: x in r ==> IsArrayIndex(x)
  {
    if keys == [] then []
    else Indices(keys[..|keys| - 1]) + (if IsArrayIndex(keys[|keys| - 1]) then [keys[|keys| - 1]] else [])
  }

  /** The other keys of `keys`, in their order. */
  function Names(keys: seq<string>): (r: seq<string>)
    ensures forall x :: x in r ==> !IsArrayIndex(x)
  {
    if keys == [] then []
    else Names(keys[..|keys| - 1]) + (if IsArrayIndex(keys[|keys| - 1]) then [] else [keys[|keys| - 1]])
  }

  /** The two filters split the keys between them. */
  lemma {:induction false} SplitKeys(keys: seq<string>)
    ensures multiset(Indices(keys)) + multiset(Names(keys)) == multiset(keys)
  {
    if keys != [] {
      SplitKeys(keys[..|keys| - 1]);
      assert keys == keys[..|keys| - 1] + [keys[|keys| - 1]];
    }
  }

  /** Puts an array index behind every index of no greater value. */
  function InsertIndex(k: string, s: seq<string>): (r: seq<string>)
    ensures multiset(r) == multiset(s) + multiset{k}
  {
    if s == [] || KeyValue(s[|s| - 1]) <= KeyValue(k) then s + [k]
    else
      var r := InsertIndex(k, s[..|s| - 1]) + [s[|s| - 1]];
      assert s == s[..|s| - 1] + [s[|s| - 1]];
      r
  }

  function SortIndices(s: seq<string>): (r: seq<string>)
    ensures multiset(r) == multiset(s)
  {
    if s == [] then []
    else
      assert s == s[..|s| - 1] + [s[|s| - 1]];
      InsertIndex(s[|s| - 1], SortIndices(s[..|s| - 1]))
  }

  /** Increasing by value. */
  predicate Ascending(s: seq<string>) {
    forall i, j :: 0 <= i < j < |s| ==> KeyValue(s[i]) <= KeyValue(s[j])
  }

  /** Every key of the result is the inserted one or one of `s`. */
  lemma InsertMembers(k: string, s: seq<string>)
    ensures forall y :: y in InsertIndex(k, s) ==> y == k || y in s
  {
    forall y | y in InsertIndex(k, s) ensures y == k || y in s {
      assert y in multiset(InsertIndex(k, s));
      assert y == k || y in multiset(s);
    }
  }

  /** Every key of an ascending sequence is at most its last one. */
  lemma AscendingLast(s: seq<string>)
    requires Ascending(s) && s != []
    ensures forall y :: y in s ==> KeyValue(y) <= KeyValue(s[|s| - 1])
  {
    forall y | y in s ensures KeyValue(y) <= KeyValue(s[|s| - 1]) {
      var i :| 0 <= i < |s| && s[i] == y;
    }
  }

  lemma {:induction false} InsertAscending(k: string, s: seq<string>)
    requires Ascending(s)
    ensures Ascending(InsertIndex(k, s))
  {
    if s != [] && KeyValue(k) < KeyValue(s[|s| - 1]) {
      var s', last := s[..|s| - 1], s[|s| - 1];
      assert Ascending(s');
      InsertAscending(k, s');
      var r' := InsertIndex(k, s');
      AscendingLast(s);
      InsertMembers(k, s');
      assert forall y :: y in s' ==> y in s;
      AscendingSnoc(r', last);
    }
  }

  /** Appending a key no smaller than any present keeps a sequence ascending. */
  lemma AscendingSnoc(r: seq<string>, last: string)
    requires Ascending(r) && forall y :: y in r ==> KeyValue(y) <= KeyValue(last)
    ensures Ascending(r + [last])
  {
    var t := r + [last];
    forall i, j | 0 <= i < j < |t| ensures KeyValue(t[i]) <= KeyValue(t[j]) {
      if j == |r| {
        assert t[i] in r;
      } else {
        assert t[i] == r[i] && t[j] == r[j];
      }
    }
  }

  lemma {:induction false} SortAscending(s: seq<string>)
    ensures Ascending(SortIndices(s))
  {
    if s != [] {
      var s' := s[..|s| - 1];
      SortAscending(s');
      InsertAscending(s[|s| - 1], SortIndices(s'));
    }
  }

  /** `Object.entries` order for keys created in the order `created`. */
  function EntriesOrder(created: seq<string>): (r: seq<string>)
    ensures multiset(r) == multiset(created)
  {
    SplitKeys(created);
    SortIndices(Indices(created)) + Names(created)
  }

  /** Array-index keys come first, by increasing value; the other keys keep
      their creation order. */
  lemma EntriesOrderSpec(created: seq<string>)
    ensures var r := EntriesOrder(created); var m := |Indices(created)|;
      && m <= |r| && r[m..] == Names(created)
      && (forall i :: 0 <= i < |r| ==> (IsArrayIndex(r[i]) <==> i < m))
      && (forall i, j :: 0 <= i < j < m ==> KeyValue(r[i]) <= KeyValue(r[j]))
  {
    var idx, names := Indices(created), Names(created);
    var sorted := SortIndices(idx);
    SortAscending(idx);
    SortedIndices(idx);
    var r := sorted + names;
    forall i | 0 <= i < |r| ensures IsArrayIndex(r[i]) <==> i < |idx| {
      if i < |idx| {
        assert r[i] == sorted[i];
      } else {
        assert r[i] == names[i - |idx|] && names[i - |idx|] in names;
      }
    }
  }

  lemma SortedIndices(idx: seq<string>)
    requires forall x :: x in idx ==> IsArrayIndex(x)
    ensures |SortIndices(idx)| == |idx|
    ensures forall i :: 0 <= i < |idx| ==> IsArrayIndex(SortIndices(idx)[i])
  {
    var sorted := SortIndices(idx);
    assert |sorted| == |multiset(sorted)| == |idx|;
    forall i | 0 <= i < |idx| ensures IsArrayIndex(sorted[i]) {
      assert sorted[i] in multiset(idx);
    }
  }
}
