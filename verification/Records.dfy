/** Items with the time of their last write, as the engines keep them. */
module Records {
  import opened SortedItems

  datatype Record = Record(it: Item, ts: nat)

  function ItemsOf(s: seq<Record>): seq<Item> {
    seq(|s|, i requires 0 <= i < |s| => s[i].it)
  }

  /** Inserts the record, or replaces the one with its key. */
  function Put(s: seq<Record>, rec: Record): seq<Record> {
    var r := Rank(ItemsOf(s), rec.it.key);
    if Has(ItemsOf(s), rec.it.key) then s[r := rec] else s[..r] + [rec] + s[r..]
  }

  lemma PutItems(s: seq<Record>, rec: Record)
    ensures ItemsOf(Put(s, rec)) == Upsert(ItemsOf(s), rec.it)
  {
    var r := Rank(ItemsOf(s), rec.it.key);
    if Has(ItemsOf(s), rec.it.key) {
      assert ItemsOf(s[r := rec]) == ItemsOf(s)[r := rec.it];
    } else {
      assert ItemsOf(s[..r] + [rec] + s[r..]) == ItemsOf(s)[..r] + [rec.it] + ItemsOf(s)[r..];
    }
  }

  lemma RemoveItems(s: seq<Record>, j: nat)
    requires j < |s|
    ensures ItemsOf(RemoveAt(s, j)) == RemoveAt(ItemsOf(s), j)
  {
  }
}
