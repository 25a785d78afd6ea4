/** The data of a TXT record: `key=value` strings, each behind its length (sections 6.1 to 6.4 of RFC 6763). */
module MdnsTxt {
  import opened Bytes
  import opened MdnsName
  import opened MdnsPacket

  const EQUALS: byte := 61

  datatype Item = Item(key: seq<byte>, value: seq<byte>)

  /** What the parser hands out; an empty value is absent. */
  datatype TxtItem = TxtItem(key: seq<byte>, value: Option<seq<byte>>)

  function Text(item: Item): seq<byte> {
    item.key + [EQUALS] + item.value
  }

  /** A non-empty key without `=`, and a string that a length byte can announce. */
  predicate Good(item: Item) {
    item.key != [] && EQUALS !in item.key && |Text(item)| <= 254
  }

  predicate AllGood(items: seq<Item>) {
    forall i :: 0 <= i < |items| ==> Good(items[i])
  }

  function Entry(item: Item): seq<byte>
    requires Good(item)
  {
    [|Text(item)|] + Text(item)
  }

  /** The strings one after the other. */
  function Entries(items: seq<Item>): seq<byte>
    requires AllGood(items)
  {
    if items == [] then [] else Entry(items[0]) + Entries(items[1..])
  }

  /** The data of the record: a record without items holds one zero byte. */
  function RecordData(items: seq<Item>): seq<byte>
    requires AllGood(items)
  {
    if items == [] then [0] else Entries(items)
  }

  // ---------------------------------------------------------------- parsing

  /** The length of the key of a string, or -1 when it starts with `=`. */
  function NameLen(text: seq<byte>): int
    requires text != []
  {
    if text[0] == EQUALS then -1 else KeyEnd(text, 0)
  }

  function KeyEnd(text: seq<byte>, from: nat): (r: nat)
    requires from <= |text|
    ensures from <= r <= |text|
    decreases |text| - from
  {
    if from == |text| || text[from] == EQUALS then from else KeyEnd(text, from + 1)
  }

  /** `_mdns_txt_items_count_get` from offset `i` on; `None` is its -1. */
  function CountFrom(data: seq<byte>, i: nat): Option<nat>
    decreases |data| - i
  {
    if i >= |data| || data[i] == 0 then Some(0)
    else if i + 1 + data[i] > |data| then None
    else match CountFrom(data, i + 1 + data[i])
      case None => None
      case Some(n) => Some(n + 1)
  }

  function Count(data: seq<byte>): Option<nat> {
    if |data| == 1 then Some(0) else CountFrom(data, 0)
  }

  /** The item made of a string whose key has `n` bytes. */
  function ItemOf(text: seq<byte>, n: nat): TxtItem
    requires n <= |text|
  {
    TxtItem(text[..n], if n + 1 < |text| then Some(text[n + 1..]) else None)
  }

  /** What comes of a record: its items, or a write behind the end of the array of items. */
  datatype Outcome = Items(items: seq<TxtItem>) | Overrun

  /**
   * The loop of `_mdns_result_txt_create` from offset `i` on, with room for `room` items. A string without `=` makes
   * it skip a byte; a string that runs over the end drops everything.
   */
  function ParseFrom(data: seq<byte>, i: nat, txt: seq<TxtItem>, room: nat): Outcome
    decreases |data| - i
  {
    if i >= |data| || data[i] == 0 then Items(txt)
    else if i + 1 + data[i] > |data| then Items([])
    else
      var text := data[i + 1..i + 1 + data[i]];
      var n := NameLen(text);
      if n < 0 then ParseFrom(data, NextVisit(data, i), txt, room)
      else if |txt| >= room then Overrun
      else ParseFrom(data, NextVisit(data, i), txt + [ItemOf(text, n)], room)
  }

  /** Where the loop goes on behind a string. */
  function NextVisit(data: seq<byte>, i: nat): (next: nat)
    requires i < |data| && data[i] > 0 && i + 1 + data[i] <= |data|
    ensures next > i
  {
    var text := data[i + 1..i + 1 + data[i]];
    var n := NameLen(text);
    if n < 0 || n + 1 < |text| then i + 1 + |text| else i + 1 + n + 1
  }

  /** `_mdns_result_txt_create`: the array has one element for every counted string. */
  function Parse(data: seq<byte>): Outcome {
    match Count(data)
    case None => Items([])
    case Some(n) => if n == 0 then Items([]) else ParseFrom(data, 0, [], n)
  }

  // ---------------------------------------------------------------- the round trip

  function Seen(item: Item): TxtItem {
    TxtItem(item.key, if item.value == [] then None else Some(item.value))
  }

  function AllSeen(items: seq<Item>): (r: seq<TxtItem>)
    ensures |r| == |items|
  {
    seq(|items|, i requires 0 <= i < |items| => Seen(items[i]))
  }

  lemma {:induction false} KeyEndFound(text: seq<byte>, from: nat, at: nat)
    requires from <= at < |text| && text[at] == EQUALS
    requires forall i :: from <= i < at ==> text[i] != EQUALS
    ensures KeyEnd(text, from) == at
    decreases at - from
  {
    if from < at {
      KeyEndFound(text, from + 1, at);
    }
  }

  /** A string is taken apart at its first `=`. */
  lemma TextSplits(item: Item)
    requires Good(item)
    ensures NameLen(Text(item)) == |item.key|
    ensures ItemOf(Text(item), |item.key|) == Seen(item)
  {
    var t := Text(item);
    assert t[..|item.key|] == item.key && t[|item.key| + 1..] == item.value;
    assert forall i :: 0 <= i < |item.key| ==> t[i] == item.key[i];
    KeyEndFound(t, 0, |item.key|);
  }

  lemma ParseTurn(data: seq<byte>, i: nat, text: seq<byte>, txt: seq<TxtItem>, room: nat)
    requires text != [] && i + 1 + |text| <= |data| && data[i] == |text| && data[i + 1..i + 1 + |text|] == text
    requires 0 <= NameLen(text) < |text| && |txt| < room
    ensures ParseFrom(data, i, txt, room) == ParseFrom(data, i + 1 + |text|, txt + [ItemOf(text, NameLen(text))], room)
  {
    hide NameLen, ItemOf;
  }

  lemma CountTurn(data: seq<byte>, i: nat, n: nat)
    requires n > 0 && i + 1 + n <= |data| && data[i] == n
    ensures CountFrom(data, i) == match CountFrom(data, i + 1 + n) case None => None case Some(m) => Some(m + 1)
  {
  }

  /** An entry inside a record. */
  lemma EntryLies(pre: seq<byte>, item: Item, rest: seq<byte>)
    requires Good(item)
    ensures var data, t := pre + Entry(item) + rest, Text(item);
      && t != [] && |pre| + 1 + |t| <= |data| && data[|pre|] == |t| && data[|pre| + 1..|pre| + 1 + |t|] == t
      && |pre + Entry(item)| == |pre| + 1 + |t|
  {
  }

  /** One turn of either loop over an entry. */
  lemma EntryStep(pre: seq<byte>, item: Item, rest: seq<byte>, txt: seq<TxtItem>, room: nat)
    requires Good(item) && |txt| < room
    ensures var data, next := pre + Entry(item) + rest, |pre + Entry(item)|;
      && ParseFrom(data, |pre|, txt, room) == ParseFrom(data, next, txt + [Seen(item)], room)
      && CountFrom(data, |pre|) == match CountFrom(data, next) case None => None case Some(n) => Some(n + 1)
  {
    hide NameLen, ItemOf, Seen, ParseFrom, CountFrom;
    EntryLies(pre, item, rest);
    hide Entry;
    TextSplits(item);
    assert |item.key| < |Text(item)|;
    var data := pre + Entry(item) + rest;
    ParseTurn(data, |pre|, Text(item), txt, room);
    CountTurn(data, |pre|, |Text(item)|);
  }

  /** Entries in front of anything are counted and parsed one by one. */
  lemma {:induction false} EntriesParse(pre: seq<byte>, items: seq<Item>, rest: seq<byte>, txt: seq<TxtItem>, room: nat)
    requires AllGood(items) && |txt| + |items| <= room
    ensures var data, next := pre + Entries(items) + rest, |pre + Entries(items)|;
      && ParseFrom(data, |pre|, txt, room) == ParseFrom(data, next, txt + AllSeen(items), room)
      && CountFrom(data, |pre|) == match CountFrom(data, next) case None => None case Some(n) => Some(n + |items|)
    decreases |items|
  {
    hide Entry, Seen, ParseFrom, CountFrom, Good;
    if items == [] {
      assert txt + AllSeen(items) == txt && pre + Entries(items) == pre;
    } else {
      var next := pre + Entry(items[0]);
      EntriesCons(pre, items, rest);
      SeenCons(txt, items);
      hide Entries, AllSeen;
      EntryStep(pre, items[0], Entries(items[1..]) + rest, txt, room);
      EntriesParse(next, items[1..], rest, txt + [Seen(items[0])], room);
    }
  }

  lemma EntriesCons(pre: seq<byte>, items: seq<Item>, rest: seq<byte>)
    requires AllGood(items) && items != []
    ensures AllGood(items[1..])
    ensures pre + Entries(items) == pre + Entry(items[0]) + Entries(items[1..])
    ensures pre + Entries(items) + rest == pre + Entry(items[0]) + (Entries(items[1..]) + rest)
  {
    var a, b := Entry(items[0]), Entries(items[1..]);
    hide Entry;
    Associative(pre, a, b);
    Associative(pre + a, b, rest);
    assert Entries(items) == a + b;
    hide Entries;
  }

  lemma SeenCons(txt: seq<TxtItem>, items: seq<Item>)
    requires items != []
    ensures txt + AllSeen(items) == txt + [Seen(items[0])] + AllSeen(items[1..])
  {
    hide Seen;
  }

  lemma EntriesFirst(items: seq<Item>, rest: seq<byte>, room: nat)
    requires AllGood(items) && |items| <= room
    ensures var data := Entries(items) + rest;
      && ParseFrom(data, 0, [], room) == ParseFrom(data, |Entries(items)|, AllSeen(items), room)
      && CountFrom(data, 0) ==
        match CountFrom(data, |Entries(items)|) case None => None case Some(n) => Some(n + |items|)
  {
    hide Entries, AllSeen, ParseFrom, CountFrom, Good, Entry;
    EntriesParse([], items, rest, [], room);
    var pre, seen := Entries(items), AllSeen(items);
    assert [] + pre == pre && [] + seen == seen;
  }

  lemma WalksEnd(data: seq<byte>, txt: seq<TxtItem>, room: nat)
    ensures ParseFrom(data, |data|, txt, room) == Items(txt) && CountFrom(data, |data|) == Some(0)
  {
  }

  lemma EntriesLong(items: seq<Item>)
    requires AllGood(items)
    ensures items != [] ==> |Entries(items)| >= 3
    ensures items == [] ==> Entries(items) == []
  {
  }

  /** Parsing the data of a record gives its items back, in order, and the count is theirs. */
  lemma TxtRoundTrip(items: seq<Item>)
    requires AllGood(items)
    ensures Parse(RecordData(items)) == Items(AllSeen(items))
    ensures Count(RecordData(items)) == Some(|items|)
  {
    hide Entries, AllSeen, ParseFrom, CountFrom, Good;
    var data := Entries(items);
    EntriesFirst(items, [], |items|);
    assert data + [] == data;
    WalksEnd(data, AllSeen(items), |items|);
    EntriesLong(items);
  }

  // ---------------------------------------------------------------- the code

  lemma {:induction false} EntriesAppend(items: seq<Item>, last: Item)
    requires AllGood(items) && Good(last)
    ensures AllGood(items + [last]) && Entries(items + [last]) == Entries(items) + Entry(last)
    decreases |items|
  {
    hide Entry, Good;
    var all := items + [last];
    if items == [] {
      assert all[1..] == [];
    } else {
      EntriesAppend(items[1..], last);
      assert all[0] == items[0] && all[1..] == items[1..] + [last];
      Associative(Entry(items[0]), Entries(items[1..]), Entry(last));
    }
  }

  lemma {:induction false} EntriesPrefix(items: seq<Item>, k: nat)
    requires AllGood(items) && k <= |items|
    ensures |Entries(items[..k])| <= |Entries(items)|
    decreases |items| - k
  {
    if k == |items| {
      assert items[..k] == items;
    } else {
      assert items[..k + 1] == items[..k] + [items[k]];
      EntriesAppend(items[..k], items[k]);
      EntriesPrefix(items, k + 1);
    }
  }

  /** The items of `_mdns_append_txt_record`: its data length, or 0 when an item does not fit. */
  method AppendTxtData(packet: Packet, items: seq<Item>) returns (dataLen: nat)
    requires packet.Valid() && AllGood(items) && packet.index < MAX_PACKET
    modifies packet`index, packet.buf
    ensures packet.Valid()
    ensures dataLen > 0 <==> items == [] || |old(packet.Written())| + |Entries(items)| < MAX_PACKET
    ensures dataLen > 0 ==>
      packet.Written() == old(packet.Written()) + RecordData(items) && dataLen == |RecordData(items)|
  {
    hide Entries, Entry, Text, AppendString, Good;
    ghost var was := packet.Written();
    dataLen := 0;
    assert Entries(items[..0]) == [] by { EntriesNil(); }
    for i := 0 to |items|
      invariant packet.Valid()
      invariant packet.Written() == was + Entries(items[..i]) && dataLen == |Entries(items[..i])|
      invariant i > 0 ==> |was| + dataLen < MAX_PACKET && dataLen > 0
    {
      assert items[..i + 1] == items[..i] + [items[i]];
      EntriesAppend(items[..i], items[i]);
      EntriesPrefix(items, i + 1);
      EntryText(packet.Written(), items[i]);
      Associative(was, Entries(items[..i]), Entry(items[i]));
      var l := packet.AppendText(Text(items[i]));
      if l == 0 {
        return 0;
      }
      assert packet.Written() == was + Entries(items[..i + 1]);
      dataLen := dataLen + l;
    }
    assert items[..|items|] == items;
    if dataLen == 0 {
      dataLen := 1;
      packet.buf[packet.index] := 0;
      packet.index := packet.index + 1;
      assert packet.Written() == was + [0];
    }
  }

  lemma EntriesNil()
    ensures Entries([]) == []
  {
  }

  /** Appending the string of an item is appending its entry. */
  lemma EntryText(p: seq<byte>, item: Item)
    requires |p| <= MAX_PACKET && Good(item)
    ensures |Entry(item)| > 0 && AppendString(p, Text(item)) ==
      if |p| + |Entry(item)| >= MAX_PACKET then Appended(p, 0, false)
      else Appended(p + Entry(item), |Entry(item)|, true)
  {
    var t := Text(item);
    assert t[..|t|] == t;
    assert p + [|t|] + t == p + Entry(item);
  }

  /** `_mdns_txt_items_count_get`. */
  method ItemsCount(data: seq<byte>) returns (r: Option<nat>)
    ensures r == Count(data)
  {
    if |data| == 1 {
      return Some(0);
    }
    var n, i := 0, 0;
    while i < |data|
      invariant Count(data) == match CountFrom(data, i) case None => None case Some(m) => Some(m + n)
      decreases |data| - i
    {
      var partLen := data[i];
      if partLen == 0 {
        break;
      }
      if i + 1 + partLen > |data| {
        return None;
      }
      i := i + 1 + partLen;
      n := n + 1;
    }
    return Some(n);
  }

  /** `_mdns_txt_item_name_get_len`. */
  method ItemNameLen(text: seq<byte>) returns (n: int)
    requires text != []
    ensures n == NameLen(text)
  {
    if text[0] == EQUALS {
      return -1;
    }
    for i := 0 to |text|
      invariant KeyEnd(text, 0) == KeyEnd(text, i)
    {
      if text[i] == EQUALS {
        return i;
      }
    }
    return |text|;
  }

  /** One turn of the loop over a whole string, in the code's terms. */
  lemma LoopTurn(data: seq<byte>, i: nat, txt: seq<TxtItem>, room: nat)
    requires i < |data| && data[i] > 0 && i + 1 + data[i] <= |data| && |txt| <= room
    ensures var text := data[i + 1..i + 1 + data[i]];
      var n := NameLen(text);
      var valueLen := |text| - n - 1;
      && n <= |text|
      && (n < 0 ==> ParseFrom(data, i, txt, room) == ParseFrom(data, i + 1 + |text|, txt, room))
      && (n >= 0 && |txt| == room ==> ParseFrom(data, i, txt, room) == Overrun)
      && (n >= 0 && |txt| < room ==>
            ParseFrom(data, i, txt, room) ==
            ParseFrom(data, i + 1 + n + 1 + (if valueLen > 0 then valueLen else 0),
                      txt + [TxtItem(text[..n], if valueLen > 0 then Some(text[n + 1..]) else None)], room))
  {
  }

  /** `_mdns_result_txt_create`: an array of items, filled in order as long as there is room. */
  method ResultCreate(data: seq<byte>) returns (outcome: Outcome)
    ensures outcome == Parse(data)
  {
    hide NameLen, ParseFrom;
    var num := ItemsCount(data);
    if num.None? || num.value == 0 {
      return Items([]);
    }
    var txt := new TxtItem[num.value](_ => TxtItem([], None));
    var txtNum, i := 0, 0;
    assert txt[..0] == [];
    hide Count, CountFrom;
    while i < |data|
      invariant txtNum <= txt.Length == num.value
      invariant ParseFrom(data, i, txt[..txtNum], num.value) == ParseFrom(data, 0, [], num.value)
      decreases |data| - i
    {
      ghost var before := txt[..txtNum];
      var partLen := data[i];
      if partLen == 0 {
        break;
      }
      if i + 1 + partLen > |data| {
        ParseStops(data, i, before, num.value);
        return Items([]);
      }
      LoopTurn(data, i, before, num.value);
      var text := data[i + 1..i + 1 + partLen];
      var nameLen := ItemNameLen(text);
      if nameLen < 0 {
        i := i + 1 + partLen;
        continue;
      }
      if txtNum == txt.Length {
        return Overrun;
      }
      var valueLen := partLen - nameLen - 1;
      txt[txtNum] := TxtItem(text[..nameLen], if valueLen > 0 then Some(text[nameLen + 1..]) else None);
      txtNum := txtNum + 1;
      assert txt[..txtNum] == before + [txt[txtNum - 1]];
      i := i + 1 + nameLen + 1;
      if valueLen > 0 {
        i := i + valueLen;
      }
    }
    ParseStops(data, i, txt[..txtNum], num.value);
    return Items(txt[..txtNum]);
  }

  lemma ParseStops(data: seq<byte>, i: nat, txt: seq<TxtItem>, room: nat)
    ensures i >= |data| || data[i] == 0 ==> ParseFrom(data, i, txt, room) == Items(txt)
    ensures i < |data| && data[i] != 0 && i + 1 + data[i] > |data| ==> ParseFrom(data, i, txt, room) == Items([])
  {
  }
}
