/** The tag/length/value option area of a DHCP message (sections 2, 3.1 and 3.2 of RFC 2132),
    as src/datagram.cpp parses and prints it. */
module Options {
  import opened Wrappers
  import opened Bytes

  const PAD: byte := 0
  const SUBNET_MASK: byte := 1
  const TIME_OFFSET: byte := 2
  const REQUESTED_IP_ADDRESS: byte := 50
  const LEASE_TIME: byte := 51
  const DHCP_MESSAGE_TYPE: byte := 53
  const SERVER_IDENTIFIER: byte := 54
  const PARAMETER_REQUEST_LIST: byte := 55
  const OPTIONS_END: byte := 255

  type OptionMap = map<byte, seq<byte>>

  /** The table `predefined_option_lengths`. */
  function PredefinedLength(tag: byte): Option<byte> {
    if tag == PAD || tag == OPTIONS_END then Some(0)
    else if tag == DHCP_MESSAGE_TYPE then Some(1)
    else if tag == SUBNET_MASK || tag == TIME_OFFSET || tag == REQUESTED_IP_ADDRESS then Some(4)
    else None
  }

  /** `BadLength` is the `invalid_argument` the parser throws. `Overrun` says that the cursor leaves
      the buffer: the source does not notice and keeps reading whatever lies behind it. */
  datatype ParseResult = Parsed(options: OptionMap) | BadLength(tag: byte) | Overrun

  /** Parsing from the front of `area`, with the options found so far. */
  function ParseFrom(area: seq<byte>, found: OptionMap): ParseResult {
    if area == [] then Overrun
    else
      var tag := area[0];
      if tag == OPTIONS_END then Parsed(found)
      else if tag == PAD then ParseFrom(area[1..], found)
      else if |area| < 2 then Overrun
      else
        var length: nat := area[1];
        if PredefinedLength(tag).Some? && PredefinedLength(tag).value != length then BadLength(tag)
        else if |area| < 2 + length then Overrun
        else ParseFrom(area[2 + length..], found[tag := area[2..2 + length]])
  }

  function ParseArea(area: seq<byte>): ParseResult {
    if area == [] then Parsed(map[]) else ParseFrom(area, map[])
  }

  /** One option behind the cursor, in terms of the whole area. */
  lemma SlicesBehind(area: seq<byte>, cursor: nat, length: nat)
    requires cursor + 2 + length <= |area|
    ensures area[cursor..][0] == area[cursor] && area[cursor..][1] == area[cursor + 1]
    ensures area[cursor..][1..] == area[cursor + 1..]
    ensures area[cursor..][2..2 + length] == area[cursor + 2..cursor + 2 + length]
    ensures area[cursor..][2 + length..] == area[cursor + 2 + length..]
  {
  }

  /** `parse_options`. The loop guard compares the cursor with itself plus the buffer size, so on a
      nonempty buffer it never becomes false. */
  method ParseOptions(area: seq<byte>) returns (r: ParseResult)
    ensures r == ParseArea(area)
  {
    var parsed: OptionMap := map[];
    var cursor := 0;
    while cursor < cursor + |area|
      invariant cursor <= |area|
      invariant area != [] ==> ParseFrom(area[cursor..], parsed) == ParseArea(area)
      invariant area == [] ==> parsed == map[]
      decreases |area| - cursor
    {
      ghost var at := cursor;
      if cursor == |area| {
        return Overrun;
      }
      var tag := area[cursor];
      cursor := cursor + 1;
      if PredefinedLength(tag) == Some(0) {
        if tag == OPTIONS_END {
          return Parsed(parsed);
        }
        assert area[at..][1..] == area[cursor..];
        continue;
      }
      if cursor == |area| {
        return Overrun;
      }
      var length: nat := area[cursor];
      cursor := cursor + 1;
      if PredefinedLength(tag).Some? && PredefinedLength(tag).value != length {
        return BadLength(tag);
      }
      if |area| - cursor < length {
        return Overrun;
      }
      SlicesBehind(area, at, length);
      parsed := parsed[tag := area[cursor..cursor + length]];
      cursor := cursor + length;
    }
    r := Parsed(parsed);
  }

  // ---- the grammar of the area, independent of the parser ----

  datatype Item = Pad | Opt(tag: byte, value: seq<byte>)

  /** How the printer spells one option; the length byte keeps only the low eight bits. */
  function SpellItem(it: Item): seq<byte> {
    match it
    case Pad => [PAD]
    case Opt(tag, value) => [tag, |value| % 0x100] + value
  }

  function Spell(items: seq<Item>): seq<byte> {
    if items == [] then [] else SpellItem(items[0]) + Spell(items[1..])
  }

  /** The length has to be one byte for the message type, and four for subnet mask, time offset and
      requested address; every other option can have any length. */
  predicate LegalLength(tag: byte, length: nat) {
    (tag == 53 ==> length == 1) && (tag in {1, 2, 50} ==> length == 4)
  }

  /** The option can stand on the wire: 0 and 255 are no option tags, and the length takes one byte. */
  predicate LegalOption(tag: byte, value: seq<byte>) {
    0 < tag < 255 && |value| < 0x100 && LegalLength(tag, |value|)
  }

  predicate LegalItems(items: seq<Item>) {
    forall i :: 0 <= i < |items| && items[i].Opt? ==> LegalOption(items[i].tag, items[i].value)
  }

  predicate Encodable(options: OptionMap) {
    forall tag :: tag in options ==> LegalOption(tag, options[tag])
  }

  predicate Carries(it: Item, tag: byte) {
    it.Opt? && it.tag == tag
  }

  /** Item `i` is the last one that carries `tag`. */
  ghost predicate LastAt(items: seq<Item>, tag: byte, i: int) {
    0 <= i < |items| && Carries(items[i], tag) && forall j :: i < j < |items| ==> !Carries(items[j], tag)
  }

  /** `options` maps every tag that occurs to the value of its last occurrence, and nothing else. */
  ghost predicate LastWins(options: OptionMap, items: seq<Item>) {
    && (forall tag :: tag in options ==> exists i :: LastAt(items, tag, i) && items[i].value == options[tag])
    && (forall i :: 0 <= i < |items| && items[i].Opt? ==> items[i].tag in options)
  }

  /** The printer may visit the hash map in any order: `order` lists each entry exactly once. */
  ghost predicate IsEnumeration(order: seq<Item>, options: OptionMap) {
    && (forall i :: 0 <= i < |order| ==> order[i].Opt?)
    && (forall i, j :: 0 <= i < j < |order| ==> order[i].tag != order[j].tag)
    && (forall i :: 0 <= i < |order| ==> order[i].tag in options && options[order[i].tag] == order[i].value)
    && (forall tag :: tag in options ==> exists i :: 0 <= i < |order| && order[i].tag == tag)
  }

  lemma {:induction false} EnumerationExists(options: OptionMap) returns (order: seq<Item>)
    ensures IsEnumeration(order, options)
    decreases |options|
  {
    order := [];
    if options != map[] {
      var tag :| tag in options;
      var fewer := map t | t in options && t != tag :: options[t];
      assert fewer.Keys == options.Keys - {tag};
      var rest := EnumerationExists(fewer);
      order := EnumerationGrows(rest, fewer, tag, options[tag]);
      assert fewer[tag := options[tag]] == options;
    }
  }

  lemma EnumerationGrows(rest: seq<Item>, fewer: OptionMap, tag: byte, value: seq<byte>) returns (order: seq<Item>)
    requires IsEnumeration(rest, fewer) && tag !in fewer
    ensures IsEnumeration(order, fewer[tag := value])
  {
    order := rest + [Opt(tag, value)];
    var options := fewer[tag := value];
    forall t | t in options
      ensures exists i :: 0 <= i < |order| && order[i].tag == t
    {
      if t == tag {
        assert order[|rest|].tag == t;
      } else {
        var i :| 0 <= i < |rest| && rest[i].tag == t;
        assert order[i].tag == t;
      }
    }
  }

  function CollectOne(found: OptionMap, it: Item): OptionMap {
    if it.Pad? then found else found[it.tag := it.value]
  }

  /** What the parser accumulates over a run of items. */
  function Collect(found: OptionMap, items: seq<Item>): OptionMap
    decreases |items|
  {
    if items == [] then found
    else Collect(CollectOne(found, items[0]), items[1..])
  }

  lemma {:induction false} CollectLastWins(found: OptionMap, items: seq<Item>)
    ensures forall i :: 0 <= i < |items| && items[i].Opt? ==> items[i].tag in Collect(found, items)
    ensures forall tag :: tag in found ==> tag in Collect(found, items)
    ensures forall tag :: tag in Collect(found, items) ==>
              || (exists i :: LastAt(items, tag, i) && items[i].value == Collect(found, items)[tag])
              || ((forall i :: 0 <= i < |items| ==> !Carries(items[i], tag)) && tag in found && found[tag] == Collect(found, items)[tag])
    decreases |items|
  {
    if items != [] {
      var rest := items[1..];
      var next := CollectOne(found, items[0]);
      var all := Collect(found, items);
      assert all == Collect(next, rest);
      CollectLastWins(next, rest);
      forall i | 0 <= i < |items| && items[i].Opt?
        ensures items[i].tag in all
      {
        if i > 0 { assert rest[i - 1] == items[i]; }
      }
      forall tag | tag in all
        ensures || (exists i :: LastAt(items, tag, i) && items[i].value == all[tag])
                || ((forall i :: 0 <= i < |items| ==> !Carries(items[i], tag)) && tag in found && found[tag] == all[tag])
      {
        if i :| LastAt(rest, tag, i) && rest[i].value == all[tag] {
          assert LastAt(items, tag, i + 1);
        } else if Carries(items[0], tag) {
          assert forall j :: 0 < j < |items| ==> items[j] == rest[j - 1];
          assert LastAt(items, tag, 0);
        }
      }
    }
  }

  lemma LastWinsIncluded(a: OptionMap, b: OptionMap, items: seq<Item>, tag: byte)
    requires LastWins(a, items) && LastWins(b, items) && tag in a
    ensures tag in b && b[tag] == a[tag]
  {
    var i :| LastAt(items, tag, i) && items[i].value == a[tag];
    assert items[i].tag in b;
    var j :| LastAt(items, tag, j) && items[j].value == b[tag];
    assert i == j;
  }

  lemma LastWinsUnique(a: OptionMap, b: OptionMap, items: seq<Item>)
    requires LastWins(a, items) && LastWins(b, items)
    ensures a == b
  {
    forall tag | tag in a
      ensures tag in b && b[tag] == a[tag]
    {
      LastWinsIncluded(a, b, items, tag);
    }
    forall tag | tag in b
      ensures tag in a
    {
      LastWinsIncluded(b, a, items, tag);
    }
  }

  lemma EnumerationLastWins(order: seq<Item>, options: OptionMap)
    requires IsEnumeration(order, options)
    ensures LastWins(options, order)
  {
    forall tag | tag in options
      ensures exists i :: LastAt(order, tag, i) && order[i].value == options[tag]
    {
      var i :| 0 <= i < |order| && order[i].tag == tag;
      assert LastAt(order, tag, i);
    }
  }

  // ---- where the parser stops ----

  /** An option begins here: there is a tag, and it is neither PAD nor END. */
  predicate StartsOption(rest: seq<byte>) {
    rest != [] && 0 < rest[0] < 255
  }

  /** Nothing is left, or an option begins whose length byte is missing, or whose length is
      acceptable but greater than the number of bytes behind it. */
  predicate CutShort(rest: seq<byte>) {
    || rest == []
    || (StartsOption(rest) && (|rest| == 1 || (LegalLength(rest[0], rest[1]) && |rest| - 2 < rest[1])))
  }

  /** An option with this tag begins, and its length byte is not the predefined one. */
  predicate Mislabelled(rest: seq<byte>, tag: byte) {
    StartsOption(rest) && |rest| >= 2 && rest[0] == tag && !LegalLength(tag, rest[1])
  }

  /** Parsing a legal run of items is collecting it and going on behind it, whatever follows. */
  lemma {:induction false} ParseSpelled(items: seq<Item>, rest: seq<byte>, found: OptionMap)
    requires LegalItems(items)
    ensures ParseFrom(Spell(items) + rest, found) == ParseFrom(rest, Collect(found, items))
    decreases |items|
  {
    if items == [] {
      assert Spell(items) + rest == rest;
    } else {
      var more := items[1..];
      SpellFront(items, rest);
      ParseOneItem(items[0], Spell(more) + rest, found);
      ParseSpelled(more, rest, CollectOne(found, items[0]));
    }
  }

  lemma SpellFront(items: seq<Item>, rest: seq<byte>)
    requires items != []
    ensures Spell(items) + rest == SpellItem(items[0]) + (Spell(items[1..]) + rest)
  {
  }

  lemma ParseOneItem(it: Item, after: seq<byte>, found: OptionMap)
    requires it.Opt? ==> LegalOption(it.tag, it.value)
    ensures ParseFrom(SpellItem(it) + after, found) == ParseFrom(after, CollectOne(found, it))
  {
    match it
    case Pad => assert ([PAD] + after)[1..] == after;
    case Opt(tag, value) => ParseOneOption(tag, value, after, found);
  }

  lemma ParseOneOption(tag: byte, value: seq<byte>, after: seq<byte>, found: OptionMap)
    requires LegalOption(tag, value)
    ensures ParseFrom(SpellItem(Opt(tag, value)) + after, found) == ParseFrom(after, found[tag := value])
  {
    var area := SpellItem(Opt(tag, value)) + after;
    assert area[0] == tag && area[1] == |value|;
    assert area[2..2 + |value|] == value;
    assert area[2 + |value|..] == after;
  }

  /** Every area is a legal run of items and a place where the parser stops: an END, a wrong
      predefined length, or the end of the buffer. */
  lemma {:induction false} ParseShape(area: seq<byte>, found: OptionMap) returns (items: seq<Item>, rest: seq<byte>)
    ensures LegalItems(items) && area == Spell(items) + rest
    ensures match ParseFrom(area, found)
            case Parsed(options) => rest != [] && rest[0] == OPTIONS_END && options == Collect(found, items)
            case BadLength(tag) => Mislabelled(rest, tag)
            case Overrun => CutShort(rest)
    decreases |area|, 1
  {
    if area != [] && area[0] == PAD {
      assert area == [area[0]] + area[1..];
      items, rest := ParseShapeBehind(area, Pad, area[1..], found);
    } else if StartsOption(area) && |area| >= 2 && LegalLength(area[0], area[1]) && |area| - 2 >= area[1] {
      var length: nat := area[1];
      FrontOption(area, length);
      items, rest := ParseShapeBehind(area, Opt(area[0], area[2..2 + length]), area[2 + length..], found);
    } else {
      items, rest := [], area;
      ParseStops(area, found);
    }
  }

  lemma {:induction false} ParseShapeBehind(area: seq<byte>, it: Item, after: seq<byte>, found: OptionMap)
    returns (items: seq<Item>, rest: seq<byte>)
    requires area == SpellItem(it) + after && (it.Opt? ==> LegalOption(it.tag, it.value))
    ensures LegalItems(items) && area == Spell(items) + rest
    ensures match ParseFrom(area, found)
            case Parsed(options) => rest != [] && rest[0] == OPTIONS_END && options == Collect(found, items)
            case BadLength(tag) => Mislabelled(rest, tag)
            case Overrun => CutShort(rest)
    decreases |area|, 0
  {
    var more;
    more, rest := ParseShape(after, CollectOne(found, it));
    ParseOneItem(it, after, found);
    items := SpellOneMore(it, more, rest);
  }

  lemma ParseStops(area: seq<byte>, found: OptionMap)
    requires area != [] ==> area[0] != PAD
    requires !(StartsOption(area) && |area| >= 2 && LegalLength(area[0], area[1]) && |area| - 2 >= area[1])
    ensures match ParseFrom(area, found)
            case Parsed(options) => area != [] && area[0] == OPTIONS_END && options == found
            case BadLength(tag) => Mislabelled(area, tag)
            case Overrun => CutShort(area)
  {
  }

  lemma FrontOption(area: seq<byte>, length: nat)
    requires 2 + length <= |area| && area[1] == length
    ensures area == SpellItem(Opt(area[0], area[2..2 + length])) + area[2 + length..]
  {
    assert area == [area[0], area[1]] + area[2..2 + length] + area[2 + length..];
  }

  lemma SpellOneMore(it: Item, more: seq<Item>, rest: seq<byte>) returns (items: seq<Item>)
    requires LegalItems(more) && (it.Opt? ==> LegalOption(it.tag, it.value))
    ensures items != [] && items[0] == it && items[1..] == more && LegalItems(items)
    ensures Spell(items) + rest == SpellItem(it) + (Spell(more) + rest)
  {
    items := [it] + more;
    assert items[1..] == more;
  }

  /** The area starts with legal items and an END, and `options` maps each tag to its last occurrence
      among the items. */
  ghost predicate Describes(items: seq<Item>, tail: seq<byte>, area: seq<byte>, options: OptionMap) {
    LegalItems(items) && area == Spell(items) + ([OPTIONS_END] + tail) && LastWins(options, items)
  }

  lemma DescribedIsParsed(items: seq<Item>, tail: seq<byte>, area: seq<byte>, options: OptionMap)
    requires Describes(items, tail, area, options)
    ensures area != [] && ParseArea(area) == Parsed(options)
  {
    ParseSpelled(items, [OPTIONS_END] + tail, map[]);
    CollectLastWins(map[], items);
    LastWinsUnique(options, Collect(map[], items), items);
  }

  lemma ParsedIsDescribed(area: seq<byte>) returns (items: seq<Item>, tail: seq<byte>)
    requires area != [] && ParseArea(area).Parsed?
    ensures Describes(items, tail, area, ParseArea(area).options)
  {
    var rest;
    items, rest := ParseShape(area, map[]);
    tail := rest[1..];
    assert rest == [OPTIONS_END] + tail;
    CollectLastWins(map[], items);
  }

  /** The parser accepts an area with a result exactly when some items and a tail describe it, or both are
      empty. */
  lemma ParserAcceptsGrammar(area: seq<byte>, options: OptionMap)
    ensures ParseArea(area) == Parsed(options) <==>
              || (area == [] && options == map[])
              || exists items, tail :: Describes(items, tail, area, options)
  {
    if area != [] && ParseArea(area) == Parsed(options) {
      var items, tail := ParsedIsDescribed(area);
    }
    if items, tail :| Describes(items, tail, area, options) {
      DescribedIsParsed(items, tail, area, options);
    }
  }

  /** The loop leaves the buffer exactly when, behind some legal items, the area ends or cuts an option
      short. In every other case it stays inside. */
  lemma ParserOverrunsExactlyWhen(area: seq<byte>)
    requires area != []
    ensures ParseArea(area) == Overrun <==>
              exists items, cut :: LegalItems(items) && area == Spell(items) + cut && CutShort(cut)
  {
    if ParseArea(area) == Overrun {
      var items, rest := ParseShape(area, map[]);
    }
    if items, cut :| LegalItems(items) && area == Spell(items) + cut && CutShort(cut) {
      ParseSpelled(items, cut, map[]);
    }
  }

  /** The parser throws over a tag exactly when, behind some legal items, an option with that tag has
      another length than the predefined one. */
  lemma ParserThrowsExactlyWhen(area: seq<byte>, tag: byte)
    requires area != []
    ensures ParseArea(area) == BadLength(tag) <==>
            exists items, rest :: LegalItems(items) && area == Spell(items) + rest && Mislabelled(rest, tag)
  {
    if ParseArea(area) == BadLength(tag) {
      var items, rest := ParseShape(area, map[]);
    }
    if items, rest :| LegalItems(items) && area == Spell(items) + rest && Mislabelled(rest, tag) {
      ParseSpelled(items, rest, map[]);
    }
  }

  /** Every option in a parsed map is legal: REQUESTED_IP_ADDRESS has four bytes, the message type
      one, no value is longer than 255 bytes, PAD and END never occur as keys. */
  lemma {:induction false} ParsedIsEncodable(area: seq<byte>, found: OptionMap)
    requires Encodable(found) && ParseFrom(area, found).Parsed?
    ensures Encodable(ParseFrom(area, found).options)
    decreases |area|
  {
    if area[0] == OPTIONS_END {
    } else if area[0] == PAD {
      ParsedIsEncodable(area[1..], found);
    } else {
      var length: nat := area[1];
      ParsedIsEncodable(area[2 + length..], found[area[0] := area[2..2 + length]]);
    }
  }

  /** Printing in any order and parsing again gives the map back, whatever bytes follow, exactly
      when every option of the map is legal on the wire. */
  lemma OptionsRoundTrip(options: OptionMap, order: seq<Item>, tail: seq<byte>)
    requires IsEnumeration(order, options)
    ensures ParseArea(Spell(order) + [OPTIONS_END] + tail) == Parsed(options) <==> Encodable(options)
  {
    var area := Spell(order) + [OPTIONS_END] + tail;
    if Encodable(options) {
      assert area == Spell(order) + ([OPTIONS_END] + tail);
      EnumerationLastWins(order, options);
      DescribedIsParsed(order, tail, area, options);
    }
    if ParseArea(area) == Parsed(options) {
      ParsedIsEncodable(area, map[]);
    }
  }

  /** Re-encoding is canonical: printing what was parsed, in any order, parses to the same map. */
  lemma ReencodingIsCanonical(area: seq<byte>, order: seq<Item>, tail: seq<byte>)
    requires area != [] && ParseArea(area).Parsed?
    requires IsEnumeration(order, ParseArea(area).options)
    ensures ParseArea(Spell(order) + [OPTIONS_END] + tail) == ParseArea(area)
  {
    ParsedIsEncodable(area, map[]);
    OptionsRoundTrip(ParseArea(area).options, order, tail);
  }

  /** An area with one option, by its bytes: behind any padding stand the tag, the length and the value,
      then END. It is accepted exactly when the length suits the tag, and otherwise dropped. */
  lemma SingleOption(tag: byte, value: seq<byte>, area: seq<byte>)
    requires 0 < tag < 255 && |value| < 0x100 && area == [0, tag, |value|] + value + [255]
    ensures ParseArea(area) ==
              if (tag == 53 ==> |value| == 1) && (tag in {1, 2, 50} ==> |value| == 4) then Parsed(map[tag := value])
              else BadLength(tag)
  {
    var behind := SpellItem(Opt(tag, value)) + [255];
    assert area[1..] == behind;
    SingleOptionBehind(tag, value, behind);
  }

  lemma SingleOptionBehind(tag: byte, value: seq<byte>, behind: seq<byte>)
    requires 0 < tag < 255 && |value| < 0x100 && behind == SpellItem(Opt(tag, value)) + [255]
    ensures ParseFrom(behind, map[]) == if LegalLength(tag, |value|) then Parsed(map[tag := value]) else BadLength(tag)
  {
    if LegalLength(tag, |value|) {
      ParseOneOption(tag, value, [255], map[]);
    } else {
      assert behind[0] == tag && behind[1] == |value|;
    }
  }

  /** For instance, an area of padding never stops the loop inside the buffer. */
  lemma {:induction false} PaddingOverruns(n: nat)
    requires n > 0
    ensures ParseArea(seq(n, i => PAD)) == Overrun
  {
    PaddingOverrunsFrom(n, map[]);
  }

  lemma {:induction false} PaddingOverrunsFrom(n: nat, found: OptionMap)
    ensures ParseFrom(seq(n, i => PAD), found) == Overrun
  {
    if n > 0 {
      PaddingOverrunsFrom(n - 1, found);
      assert seq(n, i => PAD)[1..] == seq(n - 1, i => PAD);
    }
  }
}
