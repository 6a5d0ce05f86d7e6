/** Searching the items of one node, with or without a hint. */
module NodeSearch {
  import opened Keys
  import opened SortedItems
  import opened NodeReading

  method Bsearch(items: seq<Item>, key: Key) returns (i: nat, found: bool)
    requires Sorted(items)
    ensures SearchedAt(items, key, i, found)
  {
    TotalOrder();
    i := 0;
    var n := |items|;
    while i < n
      invariant 0 <= i <= n <= |items|
      invariant forall j :: 0 <= j < i ==> Less(items[j].key, key)
      invariant forall j :: n <= j < |items| ==> Less(key, items[j].key)
    {
      var j := (i + n) / 2;
      var cmp := Strcmp(key, items[j].key);
      if cmp == 0 {
        return j, true;
      } else if cmp < 0 {
        n := j;
      } else {
        i := j + 1;
      }
    }
    found := false;
  }

  /** The hint only chooses the first probe; its byte for this depth is then overwritten. */
  method BsearchHint(items: seq<Item>, key: Key, hint: array<Octet>, depth: nat) returns (i: nat, found: bool)
    requires Sorted(items) && |items| > 0 && hint.Length == 8
    modifies hint
    ensures SearchedAt(items, key, i, found)
    ensures forall j :: 0 <= j < 8 && j != depth ==> hint[j] == old(hint[j])
    ensures depth < 8 ==>
              || hint[depth] == i % 256
              || (hint[depth] == old(hint[depth]) > 0 && found && i == if hint[depth] < |items| then hint[depth] else |items| - 1)
  {
    hide Less;
    TotalOrder();
    var low, high := 0, |items| - 1;
    if depth < 8 && hint[depth] > 0 {
      var index := if hint[depth] > |items| - 1 then |items| - 1 else hint[depth];
      var cmp := Strcmp(key, items[index].key);
      if cmp == 0 {
        return index, true;
      }
      if cmp > 0 {
        low := index + 1;
      } else {
        high := index - 1;
      }
    }
    i, found := 0, false;
    while low <= high && !found
      invariant 0 <= low <= high + 1 <= |items|
      invariant !found ==> forall j :: 0 <= j < low ==> Less(items[j].key, key)
      invariant !found ==> forall j :: high < j < |items| ==> Less(key, items[j].key)
      invariant found ==> i < |items| && items[i].key == key
      decreases high - low, !found
    {
      var mid := (low + high) / 2;
      var cmp := Strcmp(key, items[mid].key);
      if cmp == 0 {
        i, found := mid, true;
      } else if cmp < 0 {
        high := mid - 1;
      } else {
        low := mid + 1;
      }
    }
    if !found {
      i := low;
    }
    if depth < 8 {
      hint[depth] := i % 256;
    }
  }

  method Search(items: seq<Item>, key: Key, hint: array?<Octet>, depth: nat) returns (i: nat, found: bool)
    requires Sorted(items) && |items| > 0 && (hint != null ==> hint.Length == 8)
    modifies hint
    ensures SearchedAt(items, key, i, found)
  {
    if hint == null {
      i, found := Bsearch(items, key);
    } else {
      i, found := BsearchHint(items, key, hint, depth);
    }
  }
}
