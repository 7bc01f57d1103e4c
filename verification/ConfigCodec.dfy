/** The binary config file: magic, length, then type-length-value items. */
module ConfigCodec {
  import opened Bytes
  import opened ConfigItems
  import opened ConfigRings
  import opened ConfigStore

  const MAGIC: seq<byte> := [0x55, 0xab, 0x23, 0x87]
  const RTB_CFG_HDR_LEN := 6

  // ---- values ----

  function PrintItem(item: Item): seq<byte>
    requires item.Ok()
  {
    [item.offset % 0x100, item.offset / 0x100, |item.data|] + item.data
  }

  function PrintItems(items: seq<Item>): seq<byte>
    requires AllOk(items)
  {
    if |items| == 0 then [] else PrintItem(items[0]) + PrintItems(items[1..])
  }

  function TotalLen(items: seq<Item>): nat {
    if |items| == 0 then 0 else 3 + |items[0].data| + TotalLen(items[1..])
  }

  /** The file for a list of items whose total length fits the 16-bit length field. */
  function File(items: seq<Item>): seq<byte>
    requires AllOk(items)
  {
    MAGIC + [TotalLen(items) % 0x100, TotalLen(items) / 0x100 % 0x100] + PrintItems(items)
  }

  /** The items of a byte sequence that consists of whole items; None where an item is cut short. */
  function ParseItems(s: seq<byte>): (r: Option<seq<Item>>)
    ensures r.Some? ==> AllOk(r.value)
  {
    if |s| == 0 then Some([])
    else if |s| < 3 || |s| < 3 + s[2] as int then None
    else
      var low: nat, high: nat, n: nat := s[0], s[1], s[2];
      match ParseItems(s[3 + n..])
      case None => None
      case Some(rest) => Some([Item(low + 0x100 * high, s[3..3 + n])] + rest)
  }

  predicate HeaderOk(buf: seq<byte>) {
    |buf| >= RTB_CFG_HDR_LEN && buf[..4] == MAGIC && LengthField(buf) == |buf| - RTB_CFG_HDR_LEN
  }

  function LengthField(buf: seq<byte>): nat
    requires |buf| >= RTB_CFG_HDR_LEN
  {
    var low: nat, high: nat := buf[4], buf[5];
    low + 0x100 * high
  }

  lemma {:induction false} PrintItemsLength(items: seq<Item>)
    requires AllOk(items)
    ensures |PrintItems(items)| == TotalLen(items)
  {
    if |items| == 0 {
    } else {
      PrintItemsLength(items[1..]);
    }
  }

  lemma PrintedFirst(item: Item, rest: seq<byte>)
    requires item.Ok()
    ensures
      var s, n := PrintItem(item) + rest, |item.data|;
      && |s| == 3 + n + |rest| && s[2] as int == n && item.offset == s[0] as int + 0x100 * s[1] as int
      && s[3..3 + n] == item.data && s[3 + n..] == rest
  {}

  lemma ParsePrinted(item: Item, rest: seq<byte>)
    requires item.Ok() && ParseItems(rest).Some?
    ensures ParseItems(PrintItem(item) + rest) == Some([item] + ParseItems(rest).value)
  {
    hide PrintItem;
    PrintedFirst(item, rest);
  }

  /** Parsing undoes printing. */
  lemma {:induction false} ParsePrintItems(items: seq<Item>)
    requires AllOk(items)
    ensures ParseItems(PrintItems(items)) == Some(items)
  {
    if |items| == 0 {
    } else {
      hide PrintItem, ParseItems;
      ParsePrintItems(items[1..]);
      ParsePrinted(items[0], PrintItems(items[1..]));
      assert [items[0]] + items[1..] == items;
    }
  }

  lemma PrintEntry(low: byte, high: byte, data: seq<byte>)
    requires |data| < 0x100
    ensures
      var item := Item(low as int + 0x100 * high as int, data);
      item.Ok() && PrintItem(item) == [low, high, |data|] + data
  {}

  lemma PrintStep(item: Item, items: seq<Item>)
    requires item.Ok() && AllOk(items)
    ensures AllOk([item] + items) && PrintItems([item] + items) == PrintItem(item) + PrintItems(items)
  {
    hide PrintItem;
    assert ([item] + items)[1..] == items;
  }

  /** A byte sequence that parses starts with a whole item. */
  lemma ParseFirst(s: seq<byte>)
    requires |s| > 0 && ParseItems(s).Some?
    ensures |s| >= 3 + s[2] as int && ParseItems(s[3 + s[2] as int..]).Some?
    ensures
      var n: nat := s[2];
      var item := Item(s[0] as int + 0x100 * s[1] as int, s[3..3 + n]);
      ParseItems(s).value == [item] + ParseItems(s[3 + n..]).value
  {}

  lemma SplitEntry(s: seq<byte>, n: nat)
    requires 3 + n <= |s|
    ensures s == [s[0], s[1], s[2]] + s[3..3 + n] + s[3 + n..]
  {
    assert s[..3] == [s[0], s[1], s[2]];
    assert s[..3 + n] == s[..3] + s[3..3 + n];
    assert s == s[..3 + n] + s[3 + n..];
  }

  lemma PrintedBack(s: seq<byte>, n: nat)
    requires 3 <= |s| && n == s[2] as int && 3 + n <= |s|
    ensures
      var item := Item(s[0] as int + 0x100 * s[1] as int, s[3..3 + n]);
      item.Ok() && PrintItem(item) + s[3 + n..] == s
  {
    hide PrintItem;
    PrintEntry(s[0], s[1], s[3..3 + n]);
    SplitEntry(s, n);
  }

  /** Printing undoes parsing. */
  lemma {:induction false} PrintParseItems(s: seq<byte>)
    requires ParseItems(s).Some?
    ensures PrintItems(ParseItems(s).value) == s
    decreases |s|
  {
    if |s| == 0 {
    } else {
      hide PrintItem, PrintItems, ParseItems, AllOk;
      ParseFirst(s);
      var n: nat := s[2];
      var rest := s[3 + n..];
      var item := Item(s[0] as int + 0x100 * s[1] as int, s[3..3 + n]);
      PrintParseItems(rest);
      PrintedBack(s, n);
      PrintStep(item, ParseItems(rest).value);
    }
  }

  /** Every list of items whose size fits the length field has a file that is accepted and gives the list
      back, and only those have. */
  lemma FileRoundTrip(items: seq<Item>)
    requires AllOk(items)
    ensures HeaderOk(File(items)) <==> TotalLen(items) < 0x1_0000
    ensures ParseItems(File(items)[RTB_CFG_HDR_LEN..]) == Some(items)
  {
    hide PrintItems, ParseItems, TotalLen;
    PrintItemsLength(items);
    ParsePrintItems(items);
    var f, n := File(items), TotalLen(items);
    assert f[..4] == MAGIC && f[4] == n % 0x100 && f[5] == n / 0x100 % 0x100;
    assert f[RTB_CFG_HDR_LEN..] == PrintItems(items);
    LengthOctets(n);
  }

  lemma LengthOctets(n: nat)
    ensures n % 0x100 + 0x100 * (n / 0x100 % 0x100) == n % 0x1_0000
  {
    var h := n / 0x100;
    assert n == 0x100 * h + n % 0x100 && h == 0x100 * (h / 0x100) + h % 0x100;
  }

  /** Every well-formed file is the file of the list it parses to. */
  lemma FileOfParsed(buf: seq<byte>)
    requires HeaderOk(buf) && ParseItems(buf[RTB_CFG_HDR_LEN..]).Some?
    ensures File(ParseItems(buf[RTB_CFG_HDR_LEN..]).value) == buf
  {
    hide PrintItems, ParseItems, TotalLen;
    var s := buf[RTB_CFG_HDR_LEN..];
    var items := ParseItems(s).value;
    PrintParseItems(s);
    PrintItemsLength(items);
    var n := TotalLen(items);
    assert n == LengthField(buf) && n % 0x100 == buf[4] && n / 0x100 % 0x100 == buf[5];
    assert buf == buf[..4] + [buf[4], buf[5]] + s;
  }

  // ---- the parser ----

  /** `Overrun`: an item reaches beyond the buffer, and so does the program's read. */
  datatype ParseOutcome = Rejected | Parsed | Overrun

  lemma ParseStep(s: seq<byte>, i: nat)
    requires i < |s|
    ensures
      if |s| - i < 3 || |s| - i < 3 + s[i + 2] as int then ParseItems(s[i..]) == None
      else
        var n: nat, low: nat, high: nat := s[i + 2], s[i], s[i + 1];
        var rest := ParseItems(s[i + 3 + n..]);
        ParseItems(s[i..]) ==
          if rest.None? then None else Some([Item(low + 0x100 * high, s[i + 3..i + 3 + n])] + rest.value)
  {
    var t := s[i..];
    if |t| >= 3 && |t| >= 3 + t[2] as int {
      assert t[3 + t[2]..] == s[i + 3 + s[i + 2] as int..];
      assert t[3..3 + t[2]] == s[i + 3..i + 3 + s[i + 2] as int];
    }
  }

  /** The items read so far and what the rest parses to make up the whole. */
  ghost predicate ParsedTo(s: seq<byte>, i: nat, items: seq<Item>) {
    i <= |s| &&
    match ParseItems(s[i..])
    case None => ParseItems(s) == None
    case Some(rest) => ParseItems(s) == Some(items + rest)
  }

  lemma ParsedNothing(s: seq<byte>)
    ensures ParsedTo(s, 0, [])
  {
    hide ParseItems;
    assert s[0..] == s;
    if ParseItems(s).Some? {
      assert [] + ParseItems(s).value == ParseItems(s).value;
    }
  }

  lemma ParsedAll(s: seq<byte>, items: seq<Item>)
    requires ParsedTo(s, |s|, items)
    ensures ParseItems(s) == Some(items)
  {
    assert ParseItems(s[|s|..]) == Some([]) && items + [] == items;
  }

  /** `entry->offset`, `entry->len` and `entry->data` of the entry at `i`, if all of them lie in `s`. */
  function ReadEntry(s: seq<byte>, i: nat): Option<Item>
    requires i < |s|
  {
    if i + 3 > |s| || i + 3 + s[i + 2] as int > |s| then None
    else
      var low: nat, high: nat, len: nat := s[i], s[i + 1], s[i + 2];
      Some(Item(low + 0x100 * high, s[i + 3..i + 3 + len]))
  }

  lemma EntryStep(s: seq<byte>, i: nat, items: seq<Item>)
    requires i < |s| && ParsedTo(s, i, items)
    ensures
      match ReadEntry(s, i)
      case None => ParseItems(s) == None
      case Some(item) =>
        && item.Ok() && i + 3 + |item.data| <= |s|
        && ParsedTo(s, i + 3 + |item.data|, items + [item])
  {
    hide ParseItems;
    ParseStep(s, i);
    var e := ReadEntry(s, i);
    if e.Some? {
      var rest := ParseItems(s[i + 3 + |e.value.data|..]);
      if rest.Some? {
        assert items + ([e.value] + rest.value) == items + [e.value] + rest.value;
      }
    }
  }

  lemma Append(a: seq<Item>, b: seq<Item>, item: Item)
    ensures a + (b + [item]) == a + b + [item]
  {}

  /** One turn of the loop: the entry at `i` becomes an item, unless it is cut short. */
  method ParseEntry(entries: seq<byte>, i: nat, lists: ConfigLists, ghost base: seq<Item>, ghost items: seq<Item>)
    returns (item: Option<Item>)
    requires lists.Valid() && Values(lists.base) == base + items && i < |entries| && ParsedTo(entries, i, items)
    modifies lists.Repr()
    ensures lists.Valid() && fresh(lists.Repr() - old(lists.Repr()))
    ensures lists.extra == old(lists.extra) && Values(lists.extra) == old(Values(lists.extra))
    ensures item.None? ==> ParseItems(entries).None?
    ensures item.Some? ==>
              && i + 3 + |item.value.data| <= |entries|
              && ParsedTo(entries, i + 3 + |item.value.data|, items + [item.value])
              && Values(lists.base) == base + (items + [item.value])
  {
    hide ParseItems, ParsedTo, ReadEntry, Values, ConfigLists.Valid, ConfigLists.Repr, ConfigLists.Apart;
    EntryStep(entries, i, items);
    item := ReadEntry(entries, i);
    if item.Some? {
      lists.AddConfig(item.value.offset, item.value.data);
      Append(base, items, item.value);
    }
  }

  lemma NoWrap(n: nat)
    requires n < 0x1_0000
    ensures n % 0x1_0000 == n
  {}

  /** The loop of `rtb_parse_config`: one list item for each entry, until one is cut short. */
  method ParseEntries(entries: seq<byte>, lists: ConfigLists) returns (ok: bool)
    requires lists.Valid() && |entries| < 0x1_0000
    modifies lists.Repr()
    ensures lists.Valid() && fresh(lists.Repr() - old(lists.Repr()))
    ensures ok <==> ParseItems(entries).Some?
    ensures ok ==> Values(lists.base) == old(Values(lists.base)) + ParseItems(entries).value
    ensures lists.extra == old(lists.extra) && Values(lists.extra) == old(Values(lists.extra))
  {
    hide ParseItems, ParsedTo, ReadEntry, Values, ConfigLists.Valid, ConfigLists.Apart, Item.Ok, AllOk, Ring, Distinct;
    ghost var items: seq<Item>, base := [], Values(lists.base);
    ParsedNothing(entries);
    var i := 0;
    while i < |entries|
      invariant 0 <= i <= |entries| && lists.Valid() && fresh(lists.Repr() - old(lists.Repr()))
      invariant Values(lists.base) == base + items && ParsedTo(entries, i, items)
      invariant lists.extra == old(lists.extra) && Values(lists.extra) == old(Values(lists.extra))
    {
      var item := ParseEntry(entries, i, lists, base, items);
      if item.None? {
        return false;
      }
      items := items + [item.value];
      var tmp := |item.value.data| + 3;
      NoWrap(i + tmp);
      i := (i + tmp) % 0x1_0000;
    }
    ParsedAll(entries, items);
    return true;
  }

  /** `rtb_parse_config` into `lists.configs`. A buffer of fewer than 6 octets is rejected whatever lies
      behind it, because its length can not agree with the length field. */
  method ParseConfig(cfgBuf: seq<byte>, lists: ConfigLists) returns (o: ParseOutcome)
    requires lists.Valid()
    modifies lists.Repr()
    ensures lists.Valid() && fresh(lists.Repr() - old(lists.Repr()))
    ensures lists.extra == old(lists.extra) && Values(lists.extra) == old(Values(lists.extra))
    ensures o.Rejected? <==> !HeaderOk(cfgBuf)
    ensures o.Parsed? <==> HeaderOk(cfgBuf) && ParseItems(cfgBuf[RTB_CFG_HDR_LEN..]).Some?
    ensures o.Parsed? ==>
              Values(lists.base) == old(Values(lists.base)) + ParseItems(cfgBuf[RTB_CFG_HDR_LEN..]).value
    ensures o.Rejected? ==> lists.base == old(lists.base)
  {
    hide ParseItems, Values, ConfigLists.Valid, ConfigLists.Repr;
    if |cfgBuf| < RTB_CFG_HDR_LEN || cfgBuf[..4] != MAGIC {
      return Rejected;
    }
    var low: nat, high: nat := cfgBuf[4], cfgBuf[5];
    var cfgLen := low + 0x100 * high;
    if cfgLen != |cfgBuf| - RTB_CFG_HDR_LEN {
      return Rejected;
    }
    var ok := ParseEntries(cfgBuf[RTB_CFG_HDR_LEN..], lists);
    return if ok then Parsed else Overrun;
  }

  // ---- the printer ----

  lemma {:induction false} PrintItemsSnoc(items: seq<Item>, item: Item)
    requires AllOk(items) && item.Ok()
    ensures PrintItems(items + [item]) == PrintItems(items) + PrintItem(item)
    ensures TotalLen(items + [item]) == TotalLen(items) + 3 + |item.data|
  {
    if |items| == 0 {
    } else {
      assert (items + [item])[1..] == items[1..] + [item];
      PrintItemsSnoc(items[1..], item);
    }
  }

  /** The first loop of the printer in `rtb_read_config`: both lengths in 16-bit arithmetic. */
  method CountLengths(lists: ConfigLists) returns (configLen: nat, dlen: nat)
    requires lists.Valid() && AllOk(Values(lists.base))
    ensures configLen == (RTB_CFG_HDR_LEN + TotalLen(Values(lists.base))) % 0x1_0000
    ensures dlen == TotalLen(Values(lists.base)) % 0x1_0000
  {
    hide Values, TotalLen, PrintItems, PrintItem, ConfigLists.Valid;
    ghost var V := Values(lists.base);
    configLen, dlen := RTB_CFG_HDR_LEN, 0;
    lists.BaseRing(0);
    var pos := lists.configs.next;
    ghost var i := 0;
    assert V[..0] == [];
    NoLength();
    while pos != lists.configs
      invariant 0 <= i <= |V| && pos == NodeAt(lists.configs, lists.base, i)
      invariant configLen == (RTB_CFG_HDR_LEN + TotalLen(V[..i])) % 0x1_0000
      invariant dlen == TotalLen(V[..i]) % 0x1_0000
      decreases |V| - i
    {
      lists.BaseRing(i);
      assert V[..i + 1] == V[..i] + [V[i]] && V[i] == pos.Value();
      PrintItemsSnoc(V[..i], V[i]);
      Wrapped(RTB_CFG_HDR_LEN + TotalLen(V[..i]), 3 + |pos.data|);
      Wrapped(TotalLen(V[..i]), 3 + |pos.data|);
      configLen := (configLen + (3 + |pos.data|)) % 0x1_0000;
      dlen := (dlen + (3 + |pos.data|)) % 0x1_0000;
      pos := pos.next;
      i := i + 1;
    }
    lists.BaseRing(0);
    assert V[..i] == V == Values(lists.base);
  }

  lemma Wrapped(a: nat, b: nat)
    ensures (a % 0x1_0000 + b) % 0x1_0000 == (a + b) % 0x1_0000
  {}

  lemma NoLength()
    ensures TotalLen([]) == 0 && PrintItems([]) == []
  {}

  /** One item at the cursor. */
  method WriteItem(buf: array<byte>, p: nat, item: Node)
    requires item.Value().Ok() && p + 3 + |item.data| <= buf.Length
    modifies buf
    ensures buf[..p + 3 + |item.data|] == old(buf[..p]) + PrintItem(item.Value())
  {
    buf[p], buf[p + 1], buf[p + 2] := item.offset % 0x100, item.offset / 0x100 % 0x100, |item.data|;
    forall k | 0 <= k < |item.data| {
      buf[p + 3 + k] := item.data[k];
    }
  }

  /** The second loop of the printer: the items behind the header; false where the next one does not fit. */
  method WriteItems(lists: ConfigLists, buf: array<byte>) returns (ok: bool)
    requires lists.Valid() && AllOk(Values(lists.base)) && buf.Length >= RTB_CFG_HDR_LEN
    modifies buf
    ensures ok <==> RTB_CFG_HDR_LEN + TotalLen(Values(lists.base)) <= buf.Length
    ensures ok ==>
              buf[..RTB_CFG_HDR_LEN + TotalLen(Values(lists.base))]
              == old(buf[..RTB_CFG_HDR_LEN]) + PrintItems(Values(lists.base))
  {
    hide Values, TotalLen, PrintItems, PrintItem, ConfigLists.Valid;
    ghost var V, header := Values(lists.base), buf[..RTB_CFG_HDR_LEN];
    var p := RTB_CFG_HDR_LEN;
    lists.BaseRing(0);
    var pos := lists.configs.next;
    ghost var i := 0;
    assert V[..0] == [];
    NoLength();
    while pos != lists.configs
      invariant 0 <= i <= |V| && pos == NodeAt(lists.configs, lists.base, i)
      invariant p == RTB_CFG_HDR_LEN + TotalLen(V[..i]) <= buf.Length
      invariant buf[..p] == header + PrintItems(V[..i])
      decreases |V| - i
    {
      lists.BaseRing(i);
      assert V[..i + 1] == V[..i] + [V[i]] && V[i] == pos.Value();
      PrintItemsSnoc(V[..i], V[i]);
      TotalGrows(V, i + 1);
      if p + 3 + |pos.data| > buf.Length {
        assert V == Values(lists.base);
        return false;
      }
      WriteItem(buf, p, pos);
      p := p + 3 + |pos.data|;
      pos := pos.next;
      i := i + 1;
    }
    lists.BaseRing(0);
    assert V[..i] == V == Values(lists.base);
    return true;
  }

  /** The printer in `rtb_read_config`. The buffer is as long as the 16-bit `config_len` says; None where the
      program would write beyond it. The whole file is written, and exactly `config_len` octets of it,
      exactly if its length fits 16 bits. */
  method PrintConfigs(lists: ConfigLists) returns (out: Option<array<byte>>)
    requires lists.Valid() && AllOk(Values(lists.base))
    ensures out.Some? <==> RTB_CFG_HDR_LEN + TotalLen(Values(lists.base)) < 0x1_0000
    ensures out.Some? ==> fresh(out.value) && out.value[..] == File(Values(lists.base))
  {
    hide Values, TotalLen, PrintItems, ConfigLists.Valid;
    ghost var V := Values(lists.base);
    ghost var n := TotalLen(V);
    var configLen, dlen := CountLengths(lists);
    assert Values(lists.base) == V;
    if configLen < RTB_CFG_HDR_LEN {
      return None;
    }
    var buf := WriteHeader(configLen, dlen);
    assert Values(lists.base) == V;
    var ok := WriteItems(lists, buf);
    assert Values(lists.base) == V;
    if !ok {
      return None;
    }
    assert buf[..] == buf[..RTB_CFG_HDR_LEN + n];
    return Some(buf);
  }

  /** The buffer of `config_len` octets with magic and length field in place. */
  method WriteHeader(configLen: nat, dlen: nat) returns (buf: array<byte>)
    requires configLen >= RTB_CFG_HDR_LEN
    ensures fresh(buf) && buf.Length == configLen
    ensures buf[..RTB_CFG_HDR_LEN] == MAGIC + [dlen % 0x100, dlen / 0x100 % 0x100]
  {
    buf := new byte[configLen];
    buf[0], buf[1], buf[2], buf[3] := 0x55, 0xab, 0x23, 0x87;
    buf[4], buf[5] := dlen % 0x100, dlen / 0x100 % 0x100;
  }

  lemma {:induction false} TotalGrows(items: seq<Item>, k: nat)
    requires k <= |items|
    ensures TotalLen(items[..k]) <= TotalLen(items)
  {
    if k == 0 {
    } else {
      TotalGrows(items[1..], k - 1);
      assert items[..k][1..] == items[1..][..k - 1];
    }
  }

  // ---- the whole ----

  /** `Ended`: the program exits on a file it rejects; it has looked for magic and length beyond the end of a
      file of fewer than 6 octets, but ends whatever it finds there. `Undefined`: it reads or writes out of
      bounds and goes on. */
  datatype ConfigResult = Ended | Undefined | Written(file: seq<byte>)

  /** What becomes of a file: it ends the program, or it is read or printed out of bounds, or the file of
      its items merged with the extras is written. */
  function ReadOutcome(cfgBuf: seq<byte>, extras: seq<Item>): ConfigResult
    requires AllOk(extras)
  {
    if !HeaderOk(cfgBuf) then Ended
    else
      match ParseItems(cfgBuf[RTB_CFG_HDR_LEN..])
      case None => Undefined
      case Some(items) =>
        MergedOk(items, extras);
        var merged := Merged(items, extras);
        if RTB_CFG_HDR_LEN + TotalLen(merged) < 0x1_0000 then Written(File(merged)) else Undefined
  }

  /** The written file reads as the merge of the items of the file that was read with the extras, where no
      extra has an offset that occurs twice in that file. */
  ghost predicate WritesMerge(cfgBuf: seq<byte>, extras: seq<Item>, file: seq<byte>) {
    && HeaderOk(cfgBuf) && HeaderOk(file)
    && var items, m := ParseItems(cfgBuf[RTB_CFG_HDR_LEN..]), ParseItems(file[RTB_CFG_HDR_LEN..]);
       && items.Some? && m.Some?
       && ((forall k :: 0 <= k < |extras| ==> AtMostOnce(items.value, extras[k].offset)) ==>
             IsMergeOf(m.value, items.value, extras))
  }

  lemma OutcomeWritesMerge(cfgBuf: seq<byte>, extras: seq<Item>)
    requires AllOk(extras) && ReadOutcome(cfgBuf, extras).Written?
    ensures WritesMerge(cfgBuf, extras, ReadOutcome(cfgBuf, extras).file)
  {
    hide ParseItems, TotalLen, Merged, File, IsMergeOf, AtMostOnce;
    var items := ParseItems(cfgBuf[RTB_CFG_HDR_LEN..]).value;
    MergedOk(items, extras);
    FileRoundTrip(Merged(items, extras));
    if forall k :: 0 <= k < |extras| ==> AtMostOnce(items, extras[k].offset) {
      MergedIsMerge(items, extras);
    }
  }

  /** An override of one octet, and the file that comes of it. */
  lemma OverrideIsWritten()
    ensures
      var buf: seq<byte> := [0x55, 0xab, 0x23, 0x87, 5, 0, 5, 0, 2, 1, 2];
      var file: seq<byte> := [0x55, 0xab, 0x23, 0x87, 5, 0, 5, 0, 2, 9, 2];
      AllOk([Item(5, [9])]) && ReadOutcome(buf, [Item(5, [9])]) == Written(file)
  {
    hide Applied, PrintItems, Folded, Unmatched, TotalLen;
    var buf: seq<byte> := [0x55, 0xab, 0x23, 0x87, 5, 0, 5, 0, 2, 1, 2];
    var a, x, b := Item(5, [1, 2]), Item(5, [9]), Item(5, [9, 2]);
    PrintOne(a);
    PrintOne(b);
    assert buf[..4] == MAGIC && buf[RTB_CFG_HDR_LEN..] == PrintItems([a]);
    ParsePrintItems([a]);
    OneOverride(a, x);
    assert Override(a, x) == b;
    PrintItemsLength([b]);
  }

  lemma PrintOne(a: Item)
    requires a.Ok()
    ensures AllOk([a]) && PrintItems([a]) == PrintItem(a)
  {
    assert [a][1..] == [];
  }

  /** `rtb_read_config` from the parser on: the file's items, overridden by the extras and followed by the
      extras of new offsets, printed as a file again. It is written exactly if every item of the input is
      whole and the merged file fits its 16-bit length. */
  method ReadConfig(cfgBuf: seq<byte>, lists: ConfigLists) returns (r: ConfigResult, stale: bool)
    requires lists.Valid() && lists.base == [] && AllOk(Values(lists.extra))
    modifies lists.Repr()
    ensures r == ReadOutcome(cfgBuf, old(Values(lists.extra)))
    ensures r.Written? ==> WritesMerge(cfgBuf, old(Values(lists.extra)), r.file)
    ensures HeaderOk(cfgBuf) ==>
              var parsed := ParseItems(cfgBuf[RTB_CFG_HDR_LEN..]);
              stale <==> parsed.Some? && ReadsFreed(parsed.value, old(Values(lists.extra)))
  {
    hide ParseItems, Merged, TotalLen, File, Values, ConfigLists.Valid, ReadsFreed, WritesMerge;
    ghost var X := Values(lists.extra);
    stale := false;
    NoValues();
    var o := ParseConfig(cfgBuf, lists);
    if o.Rejected? {
      return Ended, false;
    } else if o.Overrun? {
      return Undefined, false;
    }
    ghost var items := ParseItems(cfgBuf[RTB_CFG_HDR_LEN..]).value;
    assert [] + items == items;
    MergedOk(items, X);
    stale := lists.MergeConfigs();
    var out := PrintConfigs(lists);
    if out.None? {
      return Undefined, stale;
    }
    OutcomeWritesMerge(cfgBuf, X);
    return Written(out.value[..]), stale;
  }

  /** Without extras a file that is accepted and made of whole items is written back octet by octet exactly
      if it is shorter than 65536 octets; the longer ones that are accepted run into the 16-bit length. */
  lemma UnchangedWithoutExtras(cfgBuf: seq<byte>)
    ensures ReadOutcome(cfgBuf, []).Ended? <==> !HeaderOk(cfgBuf)
    ensures ReadOutcome(cfgBuf, []) == Written(cfgBuf)
        <==> HeaderOk(cfgBuf) && ParseItems(cfgBuf[RTB_CFG_HDR_LEN..]).Some? && |cfgBuf| < 0x1_0000
    ensures !ReadOutcome(cfgBuf, []).Undefined? ==> ReadOutcome(cfgBuf, []) in {Ended, Written(cfgBuf)}
  {
    hide ParseItems, TotalLen, PrintItems, Merged, AllOk;
    if HeaderOk(cfgBuf) && ParseItems(cfgBuf[RTB_CFG_HDR_LEN..]).Some? {
      var items := ParseItems(cfgBuf[RTB_CFG_HDR_LEN..]).value;
      FileOfParsed(cfgBuf);
      PrintItemsLength(items);
      NothingOverridden(items);
      assert |File(items)| == RTB_CFG_HDR_LEN + TotalLen(items);
    }
  }

  // ---- files on which the program leaves its buffers ----

  /** Items without data at the offsets from 0 on. */
  function EmptyItems(n: nat): (items: seq<Item>)
    requires n <= 0x1_0000
    ensures |items| == n && AllOk(items) && UniqueOffsets(items)
    ensures forall i :: 0 <= i < n ==> items[i].data == []
  {
    seq(n, (i: nat) => Item(i, []))
  }

  lemma {:induction false} EmptyItemsLength(items: seq<Item>)
    requires forall i :: 0 <= i < |items| ==> items[i].data == []
    ensures TotalLen(items) == 3 * |items|
  {
    if |items| == 0 {
    } else {
      EmptyItemsLength(items[1..]);
    }
  }

  /** A file that the parser accepts and the printer can not print. */
  lemma PrinterOverflowIsReached()
    ensures
      var items := EmptyItems(21844);
      HeaderOk(File(items)) && ParseItems(File(items)[RTB_CFG_HDR_LEN..]) == Some(items) && UniqueOffsets(items)
    ensures ReadOutcome(File(EmptyItems(21844)), []) == Undefined
  {
    hide ParseItems, TotalLen, File, Merged, EmptyItems, HeaderOk;
    var items := EmptyItems(21844);
    EmptyItemsLength(items);
    FileRoundTrip(items);
    NothingOverridden(items);
  }

  /** A file whose one item is cut short: the parser accepts its header and reads beyond it. */
  lemma CutItemIsReached(extras: seq<Item>)
    requires AllOk(extras)
    ensures
      var buf: seq<byte> := [0x55, 0xab, 0x23, 0x87, 1, 0, 9];
      HeaderOk(buf) && ReadOutcome(buf, extras) == Undefined
  {
    var buf: seq<byte> := [0x55, 0xab, 0x23, 0x87, 1, 0, 9];
    assert buf[..4] == MAGIC && buf[RTB_CFG_HDR_LEN..] == [9];
  }

  /** A file of two items and an extra that is shorter than the first: `merge_configs` reads it after it has
      freed it. */
  lemma FreedReadIsReached()
    ensures
      var buf: seq<byte> := [0x55, 0xab, 0x23, 0x87, 8, 0, 5, 0, 2, 1, 2, 6, 0, 0];
      var items := [Item(5, [1, 2]), Item(6, [])];
      && HeaderOk(buf) && ParseItems(buf[RTB_CFG_HDR_LEN..]) == Some(items) && UniqueOffsets(items)
      && ReadsFreed(items, [Item(5, [9])])
  {
    var buf: seq<byte> := [0x55, 0xab, 0x23, 0x87, 8, 0, 5, 0, 2, 1, 2, 6, 0, 0];
    var items, x := [Item(5, [1, 2]), Item(6, [])], Item(5, [9]);
    assert buf[..4] == MAGIC;
    PrintTwo(items[0], items[1]);
    assert buf[RTB_CFG_HDR_LEN..] == PrintItems(items);
    ParsePrintItems(items);
    StaleAt(items, x, 0);
    NothingOverridden(items);
    assert [x][..0] == [] && Stale(Folded(items, [x][..0]), [x][0]);
  }

  /** A file with one offset twice: an extra of this offset takes the second place, and the first is lost. */
  lemma LostItemIsReached()
    ensures
      var buf: seq<byte> := [0x55, 0xab, 0x23, 0x87, 8, 0, 5, 0, 1, 1, 5, 0, 1, 2];
      var items := [Item(5, [1]), Item(5, [2])];
      && HeaderOk(buf) && ParseItems(buf[RTB_CFG_HDR_LEN..]) == Some(items)
      && Merged(items, [Item(5, [9])]) == [Item(5, [9])]
  {
    hide Applied;
    var buf: seq<byte> := [0x55, 0xab, 0x23, 0x87, 8, 0, 5, 0, 1, 1, 5, 0, 1, 2];
    var items, x := [Item(5, [1]), Item(5, [2])], Item(5, [9]);
    assert buf[..4] == MAGIC;
    PrintTwo(items[0], items[1]);
    assert buf[RTB_CFG_HDR_LEN..] == PrintItems(items);
    ParsePrintItems(items);
    AppliedAt(items, x, 1);
    assert items[..1] == [items[0]] && [items[0]][..0] == [] && items[2..] == [];
    assert items[1].offset == 5 && HasOffset(items, 5);
    assert [x][..0] == [] && Folded(items, []) == items;
  }

  lemma PrintTwo(a: Item, b: Item)
    requires a.Ok() && b.Ok()
    ensures AllOk([a, b]) && PrintItems([a, b]) == PrintItem(a) + PrintItem(b)
  {
    assert [a, b][1..] == [b] && [b][1..] == [];
    assert PrintItems([b]) == PrintItem(b);
  }

  lemma NoValues()
    ensures Values([]) == []
  {}
}
