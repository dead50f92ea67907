/**
 * The cart page: on load it coerces every stored entry into a canonical line
 * item, collapses the items through an insertion-ordered map keyed by node id
 * (`new Map(entries).values()`), shows the result and writes it back; the
 * remove button drops one position and writes the rest back.
 */
module Cart {
  import opened Wrappers
  import Strings
  import Numbers
  import opened CartStore

  const UntitledCourse := "Untitled Course"
  const UnknownBrand := "Unknown Brand"
  const GeneratedIdPrefix := "cart-item-"

  // ---------------------------------------------------------------------
  // Coercing one raw entry
  // ---------------------------------------------------------------------

  /** `parseFloat(String(p).trim())`; a JSON number reads back as itself. */
  function ParsePrice(p: RawPrice): Option<real> {
    match p
    case PriceNumber(x) => Some(x)
    case PriceText(t) => Numbers.ParseFloat(Strings.Trim(t))
  }

  /**
   * The `price` field when present, else `field_course_price` when present,
   * else 0; a parse that is `NaN` or negative becomes 0.
   */
  function ResolvePrice(item: RawItem): (price: real)
    ensures price >= 0.0
  {
    var parsed :=
      if item.price.Some? then ParsePrice(item.price.value)
      else if item.coursePrice.Some? then ParsePrice(item.coursePrice.value)
      else Some(0.0);
    if parsed.None? || parsed.value < 0.0 then 0.0 else parsed.value
  }

  /** A title object gives its value; a missing or empty string gives the placeholder. */
  function ResolveTitle(t: RawTitle): string {
    match t
    case TitleObject(v) => v
    case TitleText(s) => if s != "" then s else UntitledCourse
    case NoTitle => UntitledCourse
  }

  /** `item.id || item.nid || "cart-item-" + suffix`, where `suffix` is the random part. */
  function ResolveId(item: RawItem, suffix: string): string {
    if item.id.Some? && item.id.value != "" then item.id.value
    else if item.nid != "" then item.nid
    else GeneratedIdPrefix + suffix
  }

  /** The canonical line item made of one raw entry. */
  function NormalizeItem(item: RawItem, suffix: string): (c: CartItem)
    ensures c.nid == item.nid
    ensures c.id != "" && c.brandName != "" && c.price >= 0.0
    ensures item.title != TitleObject("") ==> c.title != ""
  {
    CartItem(
      ResolveId(item, suffix),
      item.nid,
      ResolveTitle(item.title),
      if item.brandName.Some? && item.brandName.value != "" then item.brandName.value else UnknownBrand,
      item.imageUrl,
      ResolvePrice(item))
  }

  /** `parsedCart.map(...)`, entry `i` drawing the random id suffix `suffixes[i]`. */
  function NormalizeAll(raw: seq<RawItem>, suffixes: seq<string>): seq<CartItem>
    requires |suffixes| == |raw|
  {
    seq(|raw|, i requires 0 <= i < |raw| => NormalizeItem(raw[i], suffixes[i]))
  }

  // ---------------------------------------------------------------------
  // Keys and the insertion-ordered map
  // ---------------------------------------------------------------------

  function Nids(s: seq<CartItem>): seq<string> {
    seq(|s|, i requires 0 <= i < |s| => s[i].nid)
  }

  function RawNids(s: seq<RawItem>): seq<string> {
    seq(|s|, i requires 0 <= i < |s| => s[i].nid)
  }

  /** The position of the first occurrence of `k`, or -1 when `k` does not occur. */
  function FirstIndex(keys: seq<string>, k: string): (r: int)
    ensures -1 <= r < |keys|
    ensures r >= 0 ==> keys[r] == k && forall j :: 0 <= j < r ==> keys[j] != k
    ensures r < 0 <==> k !in keys
  {
    if keys == [] then -1
    else if keys[0] == k then 0
    else
      var r := FirstIndex(keys[1..], k);
      assert k in keys[1..] ==> k in keys;
      assert k in keys ==> k in keys[1..] by {
        if k in keys {
          var j :| 0 <= j < |keys| && keys[j] == k;
          assert keys[1..][j - 1] == k;
        }
      }
      if r < 0 then -1 else r + 1
  }

  /** The position of the last occurrence of `k`, or -1 when `k` does not occur. */
  function LastIndex(keys: seq<string>, k: string): (r: int)
    ensures -1 <= r < |keys|
    ensures r >= 0 ==> keys[r] == k && forall j :: r < j < |keys| ==> keys[j] != k
    ensures r < 0 <==> k !in keys
  {
    if keys == [] then -1
    else if keys[|keys| - 1] == k then |keys| - 1
    else
      var r := LastIndex(keys[..|keys| - 1], k);
      assert k in keys ==> k in keys[..|keys| - 1] by {
        if k in keys {
          var j :| 0 <= j < |keys| && keys[j] == k;
          assert keys[..|keys| - 1][j] == k;
        }
      }
      r
  }

  /** `Map.prototype.set`: an existing key keeps its position and takes the new value; a new key goes last. */
  function Upsert(m: seq<CartItem>, c: CartItem): seq<CartItem> {
    var k := FirstIndex(Nids(m), c.nid);
    if k >= 0 then m[k := c] else m + [c]
  }

  /** `Array.from(new Map(entries).values())` for entries keyed by their node id. */
  function Collapse(entries: seq<CartItem>): seq<CartItem> {
    if entries == [] then []
    else Upsert(Collapse(entries[..|entries| - 1]), entries[|entries| - 1])
  }

  /** The cart the page shows and stores for the raw entries it read. */
  function Normalize(raw: seq<RawItem>, suffixes: seq<string>): seq<CartItem>
    requires |suffixes| == |raw|
  {
    Collapse(NormalizeAll(raw, suffixes))
  }

  // ---------------------------------------------------------------------
  // Removing by position
  // ---------------------------------------------------------------------

  /** `s.filter((_, i) => i !== index)`. */
  function RemoveAt<T>(s: seq<T>, index: int): seq<T> {
    if s == [] then []
    else (if index == 0 then [] else [s[0]]) + RemoveAt(s[1..], index - 1)
  }

  // ---------------------------------------------------------------------
  // What the map collapse guarantees
  // ---------------------------------------------------------------------

  /** Appending a key does not move the first occurrence of a key already present. */
  lemma FirstIndexSnoc(keys: seq<string>, x: string, y: string)
    ensures FirstIndex(keys + [x], y) ==
      if y in keys then FirstIndex(keys, y) else if y == x then |keys| else -1
  {
    var ks := keys + [x];
    var r := FirstIndex(ks, y);
    if y in keys {
      var q := FirstIndex(keys, y);
      assert ks[q] == y;
      assert r <= q;
      assert r < |keys| ==> keys[r] == ks[r];
    } else if y == x {
      assert ks[|keys|] == y;
    }
  }

  /** The last occurrence is the appended key when it matches, and unchanged otherwise. */
  lemma LastIndexSnoc(keys: seq<string>, x: string, y: string)
    ensures LastIndex(keys + [x], y) == if y == x then |keys| else LastIndex(keys, y)
  {
    assert (keys + [x])[..|keys|] == keys;
  }

  /**
   * `out` is what an insertion-ordered map keyed by node id holds after taking
   * the entries `s` in turn: one item per distinct id, no id twice, ordered by
   * each id's first entry, each the last entry with its id.
   */
  ghost predicate CollapsesTo(s: seq<CartItem>, out: seq<CartItem>) {
    && Strings.Distinct(Nids(out))
    && (forall x :: x in Nids(out) <==> x in Nids(s))
    && LastValues(s, out)
    && FirstOrder(s, out)
  }

  /** Every item of `out` is the last entry of `s` with its node id. */
  ghost predicate LastValues(s: seq<CartItem>, out: seq<CartItem>) {
    forall k :: 0 <= k < |out| ==>
      0 <= LastIndex(Nids(s), out[k].nid) && out[k] == s[LastIndex(Nids(s), out[k].nid)]
  }

  /** The items of `out` are ordered by the first entry of `s` with their node id. */
  ghost predicate FirstOrder(s: seq<CartItem>, out: seq<CartItem>) {
    forall k, l :: 0 <= k < l < |out| ==>
      FirstIndex(Nids(s), out[k].nid) < FirstIndex(Nids(s), out[l].nid)
  }

  /** Setting a key already in the map: each value is still the last entry with its key. */
  lemma UpsertExistingValues(p: seq<CartItem>, c: CartItem, m: seq<CartItem>)
    requires CollapsesTo(p, m)
    requires c.nid in Nids(m)
    ensures LastValues(p + [c], Upsert(m, c))
  {
    var s, kp := p + [c], Nids(p);
    assert Nids(s) == kp + [c.nid];
    var j := FirstIndex(Nids(m), c.nid);
    var out := Upsert(m, c);
    assert out == m[j := c];
    forall k | 0 <= k < |out|
      ensures 0 <= LastIndex(Nids(s), out[k].nid) && out[k] == s[LastIndex(Nids(s), out[k].nid)]
    {
      LastIndexSnoc(kp, c.nid, out[k].nid);
      if k != j {
        assert Nids(m)[k] != Nids(m)[j];
        assert s[LastIndex(kp, m[k].nid)] == p[LastIndex(kp, m[k].nid)];
      }
    }
  }

  /** Setting a key already in the map: the keys keep their first-entry order. */
  lemma UpsertExistingOrder(p: seq<CartItem>, c: CartItem, m: seq<CartItem>)
    requires CollapsesTo(p, m)
    requires c.nid in Nids(m)
    ensures FirstOrder(p + [c], Upsert(m, c))
  {
    var s, kp := p + [c], Nids(p);
    assert Nids(s) == kp + [c.nid];
    var j := FirstIndex(Nids(m), c.nid);
    var out := Upsert(m, c);
    assert out == m[j := c];
    forall k | 0 <= k < |out| ensures FirstIndex(Nids(s), out[k].nid) == FirstIndex(kp, m[k].nid) {
      assert out[k].nid == m[k].nid == Nids(m)[k];
      FirstIndexSnoc(kp, c.nid, out[k].nid);
    }
    assert FirstOrder(p, m);
  }

  /** Setting a key that is already in the map keeps the map's shape. */
  lemma UpsertExisting(p: seq<CartItem>, c: CartItem, m: seq<CartItem>)
    requires CollapsesTo(p, m)
    requires c.nid in Nids(m)
    ensures CollapsesTo(p + [c], Upsert(m, c))
  {
    var s := p + [c];
    assert Nids(s) == Nids(p) + [c.nid];
    var j := FirstIndex(Nids(m), c.nid);
    assert Upsert(m, c) == m[j := c];
    assert Nids(Upsert(m, c)) == Nids(m);
    UpsertExistingValues(p, c, m);
    UpsertExistingOrder(p, c, m);
  }

  /** Setting a new key: each value is still the last entry with its key, the new one included. */
  lemma UpsertNewValues(p: seq<CartItem>, c: CartItem, m: seq<CartItem>)
    requires CollapsesTo(p, m)
    requires c.nid !in Nids(m)
    ensures LastValues(p + [c], Upsert(m, c))
  {
    var s, kp := p + [c], Nids(p);
    assert Nids(s) == kp + [c.nid];
    var out := Upsert(m, c);
    assert out == m + [c];
    forall k | 0 <= k < |out|
      ensures 0 <= LastIndex(Nids(s), out[k].nid) && out[k] == s[LastIndex(Nids(s), out[k].nid)]
    {
      LastIndexSnoc(kp, c.nid, out[k].nid);
      if k < |m| {
        assert out[k] == m[k] && Nids(m)[k] == m[k].nid;
        assert s[LastIndex(kp, m[k].nid)] == p[LastIndex(kp, m[k].nid)];
      }
    }
  }

  /** Setting a new key: it comes after every key already in the map. */
  lemma UpsertNewOrder(p: seq<CartItem>, c: CartItem, m: seq<CartItem>)
    requires CollapsesTo(p, m)
    requires c.nid !in Nids(m)
    ensures FirstOrder(p + [c], Upsert(m, c))
  {
    var s, kp := p + [c], Nids(p);
    assert Nids(s) == kp + [c.nid];
    var out := Upsert(m, c);
    assert out == m + [c];
    assert c.nid !in kp;
    forall k | 0 <= k < |m| ensures FirstIndex(Nids(s), out[k].nid) == FirstIndex(kp, m[k].nid) < |kp| {
      assert out[k] == m[k] && Nids(m)[k] == m[k].nid;
      FirstIndexSnoc(kp, c.nid, out[k].nid);
    }
    FirstIndexSnoc(kp, c.nid, c.nid);
    assert FirstIndex(Nids(s), out[|m|].nid) == |kp|;
    assert FirstOrder(p, m);
  }

  /** Setting a new key appends it after every key already in the map. */
  lemma UpsertNew(p: seq<CartItem>, c: CartItem, m: seq<CartItem>)
    requires CollapsesTo(p, m)
    requires c.nid !in Nids(m)
    ensures CollapsesTo(p + [c], Upsert(m, c))
  {
    var s := p + [c];
    assert Nids(s) == Nids(p) + [c.nid];
    assert Upsert(m, c) == m + [c];
    assert Nids(Upsert(m, c)) == Nids(m) + [c.nid];
    UpsertNewValues(p, c, m);
    UpsertNewOrder(p, c, m);
  }

  /** The map collapse, entry by entry. */
  lemma {:induction false} CollapseSpec(s: seq<CartItem>)
    ensures CollapsesTo(s, Collapse(s))
  {
    if s != [] {
      var p, c := s[..|s| - 1], s[|s| - 1];
      assert s == p + [c];
      CollapseSpec(p);
      if c.nid in Nids(Collapse(p)) {
        UpsertExisting(p, c, Collapse(p));
      } else {
        UpsertNew(p, c, Collapse(p));
      }
    }
  }

  /** A list whose node ids are already distinct passes through the map unchanged. */
  lemma {:induction false} CollapseDistinct(s: seq<CartItem>)
    requires Strings.Distinct(Nids(s))
    ensures Collapse(s) == s
  {
    if s != [] {
      var n := |s|;
      var p := s[..n - 1];
      assert Nids(p) == Nids(s)[..n - 1];
      CollapseDistinct(p);
      forall i | 0 <= i < n - 1 ensures Nids(p)[i] != s[n - 1].nid {
        assert Nids(s)[i] != Nids(s)[n - 1];
      }
      assert p + [s[n - 1]] == s;
    }
  }

  /**
   * The loaded cart: one item per distinct raw node id, no id twice, in the
   * order of each id's first raw entry, each made of the last raw entry with
   * that id.
   */
  lemma NormalizeSpec(raw: seq<RawItem>, suffixes: seq<string>)
    requires |suffixes| == |raw|
    ensures Strings.Distinct(Nids(Normalize(raw, suffixes)))
    ensures forall x :: x in Nids(Normalize(raw, suffixes)) <==> x in RawNids(raw)
    ensures forall k :: 0 <= k < |Normalize(raw, suffixes)| ==>
      var i := LastIndex(RawNids(raw), Normalize(raw, suffixes)[k].nid);
      0 <= i && Normalize(raw, suffixes)[k] == NormalizeItem(raw[i], suffixes[i])
    ensures forall k, l :: 0 <= k < l < |Normalize(raw, suffixes)| ==>
      FirstIndex(RawNids(raw), Normalize(raw, suffixes)[k].nid) < FirstIndex(RawNids(raw), Normalize(raw, suffixes)[l].nid)
  {
    var items := NormalizeAll(raw, suffixes);
    assert Nids(items) == RawNids(raw);
    CollapseSpec(items);
  }

  /** Two raw entries with one node id load as a single item made of the later entry. */
  lemma DuplicateKeepsLater(a: RawItem, b: RawItem, sa: string, sb: string)
    requires a.nid == b.nid
    ensures Normalize([a, b], [sa, sb]) == [NormalizeItem(b, sb)]
  {
    var items := NormalizeAll([a, b], [sa, sb]);
    assert items[..1] == [NormalizeItem(a, sa)];
    assert Collapse(items[..1]) == [NormalizeItem(a, sa)] by {
      assert items[..1][..0] == [];
    }
  }

  // ---------------------------------------------------------------------
  // Field resolution
  // ---------------------------------------------------------------------

  /**
   * `price` wins over `field_course_price`: once `price` is present the other
   * field does not matter, even when `price` does not parse.
   */
  lemma PricePrecedence(item: RawItem, other: Option<RawPrice>)
    requires item.price.Some?
    ensures ResolvePrice(item.(coursePrice := other)) == ResolvePrice(item)
    ensures ParsePrice(item.price.value).None? ==> ResolvePrice(item) == 0.0
  {
  }

  /** Without either price field the price is 0. */
  lemma PriceAbsent(item: RawItem)
    requires item.price.None? && item.coursePrice.None?
    ensures ResolvePrice(item) == 0.0
  {
  }

  /**
   * The field read (`price`, else `field_course_price`) decides the price: a
   * parse that is `NaN` gives 0, a negative one gives 0, any other is kept.
   */
  lemma PriceClamp(item: RawItem)
    ensures item.price.Some? ==>
      ResolvePrice(item) == match ParsePrice(item.price.value) case None => 0.0 case Some(v) => if v < 0.0 then 0.0 else v
    ensures item.price.None? && item.coursePrice.Some? ==>
      ResolvePrice(item) == match ParsePrice(item.coursePrice.value) case None => 0.0 case Some(v) => if v < 0.0 then 0.0 else v
  {
  }

  /** An entry with only the given price fields. */
  function PricedEntry(coursePrice: Option<RawPrice>, price: Option<RawPrice>): RawItem {
    RawItem(None, "1", NoTitle, None, None, coursePrice, price)
  }

  /** "12.50" reads as 12.5. */
  lemma PriceFromDecimalText()
    ensures ResolvePrice(PricedEntry(None, Some(PriceText("12.50")))) == 12.5
  {
    Strings.TrimUnpadded("12.50");
    Numbers.ParseTwelveFifty();
  }

  /** Text after the number is ignored: a course price written "1,200" loads as 1. */
  lemma SeparatedPriceReadsFirstGroup()
    ensures ResolvePrice(PricedEntry(Some(PriceText("1,200")), None)) == 1.0
  {
    Strings.TrimUnpadded("1,200");
    Numbers.ParseThousandsSeparator();
  }

  /** A negative price reads as 0. */
  lemma NegativePriceIsZero()
    ensures ResolvePrice(PricedEntry(Some(PriceText("-5")), None)) == 0.0
  {
    Strings.TrimUnpadded("-5");
    assert "-5" == "-" + Numbers.NatText(5);
    Numbers.ParseNegativeNatText(5);
  }

  /** Text that is not a number reads as 0, and so does a present `price` hiding a valid `field_course_price`. */
  lemma UnparseablePriceIsZero()
    ensures ResolvePrice(PricedEntry(None, Some(PriceText("abc")))) == 0.0
    ensures ResolvePrice(PricedEntry(Some(PriceText("10")), Some(PriceText("abc")))) == 0.0
  {
    Strings.TrimUnpadded("abc");
    Numbers.ParseLetters();
  }

  /** Title, brand, image and id of a loaded item, field by field. */
  lemma ResolvedFields(item: RawItem, suffix: string)
    ensures item.title.TitleObject? ==> NormalizeItem(item, suffix).title == item.title.value
    ensures item.title.TitleText? && item.title.text != "" ==> NormalizeItem(item, suffix).title == item.title.text
    ensures item.title in {NoTitle, TitleText("")} ==> NormalizeItem(item, suffix).title == UntitledCourse
    ensures NormalizeItem(item, suffix).brandName ==
      if item.brandName.Some? && item.brandName.value != "" then item.brandName.value else UnknownBrand
    ensures NormalizeItem(item, suffix).imageUrl == item.imageUrl
    ensures item.id.Some? && item.id.value != "" ==> NormalizeItem(item, suffix).id == item.id.value
    ensures (item.id.None? || item.id.value == "") && item.nid != "" ==> NormalizeItem(item, suffix).id == item.nid
    ensures (item.id.None? || item.id.value == "") && item.nid == "" ==>
      NormalizeItem(item, suffix).id == GeneratedIdPrefix + suffix
  {
  }

  // ---------------------------------------------------------------------
  // Repair on read
  // ---------------------------------------------------------------------

  /** What a loaded item always satisfies when its title is not empty. */
  predicate Canonical(c: CartItem) {
    c.id != "" && c.title != "" && c.brandName != "" && c.price >= 0.0
  }

  /** Writing a canonical item and reading it back yields the item again. */
  lemma NormalizeToRaw(c: CartItem, suffix: string)
    requires Canonical(c)
    ensures NormalizeItem(ToRaw(c), suffix) == c
  {
  }

  /** Reloading a stored cart of canonical items with distinct node ids gives the same cart. */
  lemma ReloadIsStable(cart: seq<CartItem>, suffixes: seq<string>)
    requires Strings.Distinct(Nids(cart))
    requires forall k :: 0 <= k < |cart| ==> Canonical(cart[k])
    requires |suffixes| == |cart|
    ensures Normalize(Serialize(cart), suffixes) == cart
  {
    var items := NormalizeAll(Serialize(cart), suffixes);
    forall k | 0 <= k < |cart| ensures items[k] == cart[k] {
      NormalizeToRaw(cart[k], suffixes[k]);
    }
    assert items == cart;
    CollapseDistinct(cart);
  }

  /**
   * Loading twice is loading once, as long as no raw entry carries a title
   * object with an empty value.
   */
  lemma LoadTwiceIsLoadOnce(raw: seq<RawItem>, first: seq<string>, second: seq<string>)
    requires |first| == |raw| && |second| == |Normalize(raw, first)|
    requires forall i :: 0 <= i < |raw| ==> raw[i].title != TitleObject("")
    ensures Normalize(Serialize(Normalize(raw, first)), second) == Normalize(raw, first)
  {
    var cart := Normalize(raw, first);
    NormalizeSpec(raw, first);
    forall k | 0 <= k < |cart| ensures Canonical(cart[k]) {
      var i := LastIndex(RawNids(raw), cart[k].nid);
      assert cart[k] == NormalizeItem(raw[i], first[i]);
    }
    ReloadIsStable(cart, second);
  }

  /** A title object with an empty value loads as "" and then, on the next load, as the placeholder. */
  lemma EmptyTitleObjectChangesOnReload()
    ensures var raw := [RawItem(Some("7"), "7", TitleObject(""), None, None, None, None)];
      Normalize(raw, [""])[0].title == "" &&
      Normalize(Serialize(Normalize(raw, [""])), [""])[0].title == UntitledCourse
  {
    var raw := [RawItem(Some("7"), "7", TitleObject(""), None, None, None, None)];
    var once := Normalize(raw, [""]);
    assert NormalizeAll(raw, [""]) == [NormalizeItem(raw[0], "")];
    assert once == [NormalizeItem(raw[0], "")] by {
      assert NormalizeAll(raw, [""])[..0] == [];
    }
    var twice := Normalize(Serialize(once), [""]);
    assert NormalizeAll(Serialize(once), [""]) == [NormalizeItem(ToRaw(once[0]), "")];
    assert twice == [NormalizeItem(ToRaw(once[0]), "")] by {
      assert NormalizeAll(Serialize(once), [""])[..0] == [];
    }
  }

  // ---------------------------------------------------------------------
  // Removal
  // ---------------------------------------------------------------------

  /**
   * Removing a position in range deletes exactly that element and keeps the
   * others in order; any other index leaves the list as it is.
   */
  lemma {:induction false} RemoveAtSpec<T>(s: seq<T>, index: int)
    ensures 0 <= index < |s| ==> RemoveAt(s, index) == s[..index] + s[index + 1..]
    ensures !(0 <= index < |s|) ==> RemoveAt(s, index) == s
  {
    if s != [] {
      RemoveAtSpec(s[1..], index - 1);
      if index == 0 {
        assert RemoveAt(s[1..], -1) == s[1..];
      } else if 0 < index < |s| {
        assert s[..index] == [s[0]] + s[1..][..index - 1];
        assert s[index + 1..] == s[1..][index..];
      } else {
        assert [s[0]] + s[1..] == s;
      }
    }
  }

  /** Removing one item from a cart whose node ids are distinct leaves them distinct. */
  lemma RemovePreservesDistinct(cart: seq<CartItem>, index: int)
    requires Strings.Distinct(Nids(cart))
    ensures Strings.Distinct(Nids(RemoveAt(cart, index)))
  {
    RemoveAtSpec(cart, index);
    if 0 <= index < |cart| {
      var r := RemoveAt(cart, index);
      forall a, b | 0 <= a < b < |r| ensures Nids(r)[a] != Nids(r)[b] {
        var a' := if a < index then a else a + 1;
        var b' := if b < index then b else b + 1;
        assert r[a] == cart[a'] && r[b] == cart[b'];
        assert Nids(cart)[a'] != Nids(cart)[b'];
      }
    }
  }

  /** Removing index 1 of a three-item cart leaves the items at 0 and 2, in that order. */
  lemma RemoveMiddleOfThree(a: CartItem, b: CartItem, c: CartItem)
    ensures RemoveAt([a, b, c], 1) == [a, c]
  {
    RemoveAtSpec([a, b, c], 1);
  }

  // ---------------------------------------------------------------------
  // The page state
  // ---------------------------------------------------------------------

  /** The page's `cart` state and the browser store it reads and writes. */
  class CartPage {
    var cart: seq<CartItem>
    var store: StoredCart

    /** No two items in the shown cart share a node id. */
    ghost predicate Valid()
      reads this
    {
      Strings.Distinct(Nids(cart))
    }

    /** The page mounts with an empty cart over whatever the store holds. */
    constructor(saved: StoredCart)
      ensures Valid()
      ensures cart == [] && store == saved
    {
      cart := [];
      store := saved;
    }

    /**
     * The load effect. Stored entries are normalised, shown and written back;
     * with nothing stored, or text that does not parse, nothing changes.
     * `suffixes[i]` is the random part of a generated id for entry `i`.
     */
    method Load(suffixes: seq<string>)
      requires Valid()
      requires store.Saved? ==> |suffixes| == |store.entries|
      modifies this
      ensures Valid()
      ensures old(store).Saved? ==>
        cart == Normalize(old(store).entries, suffixes) && store == Saved(Serialize(cart))
      ensures !old(store).Saved? ==> cart == old(cart) && store == old(store)
    {
      match store
      case Saved(entries) =>
        var formatted := Normalize(entries, suffixes);
        NormalizeSpec(entries, suffixes);
        cart := formatted;
        store := Saved(Serialize(formatted));
      case Absent =>
      case Unparseable =>
    }

    /** `handleRemoveFromCart`: drops position `index` and writes the rest back. */
    method RemoveFromCart(index: int)
      requires Valid()
      modifies this
      ensures Valid()
      ensures cart == RemoveAt(old(cart), index) && store == Saved(Serialize(cart))
    {
      var updated := RemoveAt(cart, index);
      RemovePreservesDistinct(cart, index);
      cart := updated;
      store := Saved(Serialize(updated));
    }
  }
}
