/** TXT data with strings that have no name: a string is cut at its first `=`, and dropped if that comes first. */
module MdnsTxtNames {
  import opened Bytes
  import opened MdnsTxt

  /** A string with an `=`, of at most 255 bytes; its key may be empty. */
  predicate Split(item: Item) {
    EQUALS !in item.key && |Text(item)| <= 255
  }

  predicate AllSplit(items: seq<Item>) {
    forall i :: 0 <= i < |items| ==> Split(items[i])
  }

  function Prefixed(text: seq<byte>): seq<byte>
    requires |text| <= 255
  {
    [|text|] + text
  }

  /** The strings one after the other. */
  function Strings(items: seq<Item>): seq<byte>
    requires AllSplit(items)
  {
    if items == [] then [] else Strings(items[..|items| - 1]) + Prefixed(Text(items[|items| - 1]))
  }

  /** The items that have a name. */
  function Named(items: seq<Item>): seq<TxtItem> {
    if items == [] then []
    else
      var last := items[|items| - 1];
      Named(items[..|items| - 1]) + if last.key == [] then [] else [Seen(last)]
  }

  /** Where the key of a string ends, and that a string that begins with `=` has none. */
  lemma NameLenIs(item: Item)
    requires Split(item)
    ensures NameLen(Text(item)) == if item.key == [] then -1 else |item.key|
    ensures item.key != [] ==> ItemOf(Text(item), |item.key|) == Seen(item)
  {
    var t := Text(item);
    assert t[..|item.key|] == item.key && t[|item.key| + 1..] == item.value;
    assert forall i :: 0 <= i < |item.key| ==> t[i] == item.key[i];
    KeyEndFound(t, 0, |item.key|);
  }

  /** And a string without `=` is all key. */
  lemma {:induction false} BareNameLen(text: seq<byte>, from: nat)
    requires text != [] && EQUALS !in text && from <= |text|
    ensures KeyEnd(text, from) == |text| && NameLen(text) >= 0
    decreases |text| - from
  {
    if from < |text| {
      BareNameLen(text, from + 1);
    }
  }

  lemma NamelessTurn(data: seq<byte>, i: nat, text: seq<byte>, txt: seq<TxtItem>, room: nat)
    requires text != [] && i + 1 + |text| <= |data| && data[i] == |text| && data[i + 1..i + 1 + |text|] == text
    requires NameLen(text) < 0
    ensures ParseFrom(data, i, txt, room) == ParseFrom(data, i + 1 + |text|, txt, room)
  {
    hide NameLen, ItemOf;
  }

  lemma StringLies(pre: seq<byte>, text: seq<byte>, rest: seq<byte>)
    requires 0 < |text| <= 255
    ensures var data := pre + Prefixed(text) + rest;
      && |pre| + 1 + |text| <= |data| && data[|pre|] == |text| && data[|pre| + 1..|pre| + 1 + |text|] == text
      && |pre + Prefixed(text)| == |pre| + 1 + |text|
  {
  }

  /** One turn of either loop over a string. */
  lemma StringStep(pre: seq<byte>, item: Item, rest: seq<byte>, txt: seq<TxtItem>, room: nat)
    requires Split(item) && |txt| < room
    ensures var data, next := pre + Prefixed(Text(item)) + rest, |pre + Prefixed(Text(item))|;
      && ParseFrom(data, |pre|, txt, room) ==
           ParseFrom(data, next, txt + (if item.key == [] then [] else [Seen(item)]), room)
      && CountFrom(data, |pre|) == match CountFrom(data, next) case None => None case Some(n) => Some(n + 1)
  {
    hide NameLen, ItemOf, Seen, ParseFrom, CountFrom;
    var text := Text(item);
    assert text != [] && |item.key| < |text|;
    StringLies(pre, text, rest);
    hide Prefixed;
    NameLenIs(item);
    hide Text;
    var data := pre + Prefixed(text) + rest;
    CountTurn(data, |pre|, |text|);
    if item.key == [] {
      NamelessTurn(data, |pre|, text, txt, room);
      assert txt + [] == txt;
    } else {
      ParseTurn(data, |pre|, text, txt, room);
    }
  }

  lemma {:induction false} NamedFit(items: seq<Item>)
    ensures |Named(items)| <= |items|
  {
    if items != [] {
      NamedFit(items[..|items| - 1]);
    }
  }

  lemma {:induction false} StringsParse(items: seq<Item>, rest: seq<byte>, room: nat)
    requires AllSplit(items) && |items| <= room
    ensures var data := Strings(items) + rest;
      && ParseFrom(data, 0, [], room) == ParseFrom(data, |Strings(items)|, Named(items), room)
      && CountFrom(data, 0) ==
        match CountFrom(data, |Strings(items)|) case None => None case Some(n) => Some(n + |items|)
    decreases |items|
  {
    hide Prefixed, Seen, ParseFrom, CountFrom, Text;
    if items != [] {
      var front, last := items[..|items| - 1], items[|items| - 1];
      var entry := Prefixed(Text(last));
      Associative(Strings(front), entry, rest);
      StringsParse(front, entry + rest, room);
      NamedFit(front);
      StringStep(Strings(front), last, rest, Named(front), room);
    }
  }

  lemma {:induction false} StringsLong(items: seq<Item>)
    requires AllSplit(items)
    ensures |Strings(items)| >= 2 * |items|
  {
    if items != [] {
      StringsLong(items[..|items| - 1]);
      assert |Text(items[|items| - 1])| >= 1;
    }
  }

  /** Of strings with an `=` exactly those come back that have a name, in order, cut at the first `=`. */
  lemma NamelessDropped(items: seq<Item>)
    requires AllSplit(items) && items != []
    ensures Parse(Strings(items)) == Items(Named(items)) && Count(Strings(items)) == Some(|items|)
  {
    hide Strings, Named, ParseFrom, CountFrom, Split;
    var data := Strings(items);
    StringsParse(items, [], |items|);
    assert data + [] == data;
    WalksEnd(data, Named(items), |items|);
    StringsLong(items);
  }
}
