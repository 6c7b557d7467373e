/** The configured address pool. */
module Pool {
  import opened Text
  import opened IPv4
  import opened Sorting

  /** The items of a comma-separated list: trimmed, blank ones skipped. */
  function Items(parts: seq<string>): seq<string> {
    if parts == [] then []
    else
      var items, last := Items(parts[..|parts| - 1]), TrimSpace(parts[|parts| - 1]);
      if last == "" then items else items + [last]
  }

  /** `pool` is what the items spell, in order. */
  ghost predicate Spells(items: seq<string>, pool: seq<Addr>) {
    |pool| == |items| && forall i :: 0 <= i < |items| ==> Parse(items[i]) == Some(pool[i])
  }

  /** A usable list: at least one item, all of them addresses, none twice. */
  ghost predicate Usable(items: seq<string>) {
    items != [] && (forall i :: 0 <= i < |items| ==> Parse(items[i]).Some?) && Distinct(items)
  }

  lemma SpelledDistinct(items: seq<string>, pool: seq<Addr>)
    requires Spells(items, pool)
    ensures Distinct(items) <==> Distinct(pool)
  {
    forall i, j | 0 <= i < j < |items| ensures items[i] == items[j] <==> pool[i] == pool[j] {
      ParseIffFormat(items[i], pool[i]);
      ParseIffFormat(items[j], pool[j]);
    }
  }

  lemma {:induction false} ItemsPrefix(parts: seq<string>, i: nat)
    requires i <= |parts|
    ensures Items(parts[..i]) <= Items(parts)
    decreases |parts|
  {
    if i == |parts| {
      assert parts[..i] == parts;
    } else {
      assert parts[..|parts| - 1][..i] == parts[..i];
      ItemsPrefix(parts[..|parts| - 1], i);
    }
  }

  lemma SpellsAppend(items: seq<string>, pool: seq<Addr>, text: string, a: Addr)
    requires Spells(items, pool) && Parse(text) == Some(a)
    ensures Spells(items + [text], pool + [a])
  {}

  /** A list is unusable as soon as some first part of it is. */
  lemma BadItem(items: seq<string>, done: seq<string>, text: string)
    requires done + [text] <= items && Parse(text).None?
    ensures !Usable(items)
  {
    assert items[|done|] == text;
  }

  lemma RepeatedItem(items: seq<string>, done: seq<string>, pool: seq<Addr>, text: string, a: Addr)
    requires done + [text] <= items && Spells(done, pool) && Parse(text) == Some(a) && a in pool
    ensures !Usable(items)
  {
    var k :| 0 <= k < |pool| && pool[k] == a;
    ParseIffFormat(done[k], a);
    ParseIffFormat(text, a);
    assert items[k] == done[k] && items[|done|] == text;
  }

  /** Accepts exactly the usable lists, and returns the addresses they spell. */
  method ParsePool(raw: string) returns (r: Result<seq<Addr>>)
    ensures r.Ok? <==> Usable(Items(Split(raw, ',')))
    ensures r.Ok? ==> r.value != [] && Distinct(r.value) && Spells(Items(Split(raw, ',')), r.value)
  {
    var parts := Split(raw, ',');
    ghost var items := Items(parts);
    var pool := [];
    var seen: set<Addr> := {};
    for i := 0 to |parts|
      invariant Spells(Items(parts[..i]), pool) && Distinct(pool)
      invariant forall a :: a in seen <==> a in pool
    {
      ghost var done := Items(parts[..i]);
      var candidate := TrimSpace(parts[i]);
      assert Items(parts[..i + 1]) == if candidate == "" then done else done + [candidate] by {
        assert parts[..i + 1][..i] == parts[..i];
      }
      if candidate == "" {
        continue;
      }
      ItemsPrefix(parts, i + 1);
      var addr := Parse(candidate);
      if addr.None? {
        BadItem(items, done, candidate);
        return Err;
      }
      if addr.value in seen {
        RepeatedItem(items, done, pool, candidate, addr.value);
        return Err;
      }
      SpellsAppend(done, pool, candidate, addr.value);
      seen := seen + {addr.value};
      pool := pool + [addr.value];
    }
    TakeAll(parts);
    SpelledDistinct(items, pool);
    if |pool| == 0 {
      return Err;
    }
    return Ok(pool);
  }

  lemma {:induction false} CleanItems(items: seq<string>)
    requires forall i :: 0 <= i < |items| ==> items[i] != "" && TrimSpace(items[i]) == items[i]
    ensures Items(items) == items
  {
    if items != [] {
      var n := |items| - 1;
      CleanItems(items[..n]);
      assert items == items[..n] + [items[n]];
    }
  }

  /** White space around an item does not matter, and blank items do not count. */
  lemma PaddedItem(parts: seq<string>, text: string)
    ensures Items(parts + [text]) == if Blank(text) then Items(parts) else Items(parts) + [TrimSpace(text)]
  {
    TrimSpaceBlank(text);
    assert (parts + [text])[..|parts|] == parts;
  }

  function Written(pool: seq<Addr>): seq<string> {
    Map(Format, pool)
  }

  /** Any list of different addresses, written with commas between them, reads back as that list. */
  lemma PoolRoundTrip(pool: seq<Addr>)
    requires pool != [] && Distinct(pool)
    ensures Usable(Items(Split(Join(Written(pool), ','), ',')))
    ensures Spells(Items(Split(Join(Written(pool), ','), ',')), pool)
  {
    var items := Written(pool);
    forall i | 0 <= i < |items| ensures Parse(items[i]) == Some(pool[i]) && ',' !in items[i] && items[i] != "" && TrimSpace(items[i]) == items[i] {
      ParseFormat(pool[i]);
      FormatShape(pool[i]);
      TrimSpaceIdentity(items[i]);
    }
    SplitJoin(items, ',');
    CleanItems(items);
    SpelledDistinct(items, pool);
  }
}
