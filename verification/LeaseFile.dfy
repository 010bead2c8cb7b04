/** The whole lease file: `write_leases` and `load_leases` of src/daemon.cpp undo each other. */
module LeaseFile {
  import opened Wrappers
  import opened Bytes
  import opened DhcpDatagram
  import opened Leases
  import opened LeaseText
  import opened Runs

  ghost predicate Lists(order: seq<HwAddr>, keys: set<HwAddr>) {
    forall k :: k in keys <==> k in order
  }

  /** The keys in the order in which the map is walked. */
  function InOrder(keys: set<HwAddr>): (order: seq<HwAddr>)
    ensures Lists(order, keys)
    decreases |keys|
  {
    if keys == {} then []
    else
      var k := Least(keys);
      [k] + InOrder(keys - {k})
  }

  /** Every key is before those behind it, byte by byte from the front. */
  lemma {:induction false} InOrderIsSorted(keys: set<HwAddr>)
    ensures var order := InOrder(keys);
            Lists(order, keys) && forall i, j :: 0 <= i < j < |order| ==> Before(order[i], order[j])
    decreases |keys|
  {
    if keys != {} {
      var k := Least(keys);
      var rest := InOrder(keys - {k});
      InOrderIsSorted(keys - {k});
      LeastIsBeforeAll(keys, k);
      assert forall j :: 0 <= j < |rest| ==> rest[j] in keys && rest[j] != k by {
        forall j | 0 <= j < |rest|
          ensures rest[j] in keys - {k}
        {
          assert rest[j] in rest;
        }
      }
    }
  }

  /** The lines in the given order, each ended by a newline. */
  function FileText(t: Table, order: seq<HwAddr>): string
    requires forall k :: k in order ==> k in t
  {
    if order == [] then [] else LineText(order[0], t[order[0]]) + ['\n'] + FileText(t, order[1..])
  }

  /** What repeated `getline` calls deliver: text behind the last newline counts as a line. */
  function Lines(text: string): seq<string>
    decreases |text|
  {
    if text == [] then []
    else
      var p := FindFirst(text, '\n');
      [text[..p]] + if p < |text| then Lines(text[p + 1..]) else []
  }

  /** What one line does to the table; `None` is the uncaught `out_of_range`. */
  function ApplyLine(line: string, now: uint64, residue: HwAddr, t: Table): Option<Table> {
    match ReadLine(line, now, residue)
    case Malformed => Some(t)
    case Expired => Some(t)
    case TooManyOctets => None
    case Entry(k, l) => Some(t[k := l])
  }

  /** Line number `n` and those behind it. The address array is a new uninitialised one for each line;
      `residue(n)` is what it holds on line `n`. */
  function LoadLines(lines: seq<string>, n: nat, now: uint64, residue: nat -> HwAddr, t: Table): Option<Table>
    decreases |lines|
  {
    if lines == [] then Some(t)
    else
      match ApplyLine(lines[0], now, residue(n), t)
      case None => None
      case Some(next) => LoadLines(lines[1..], n + 1, now, residue, next)
  }

  function Load(text: string, now: uint64, residue: nat -> HwAddr): Option<Table> {
    LoadLines(Lines(text), 0, now, residue, map[])
  }

  /** The rest of the text behind the first line. */
  function AfterLine(text: string): string {
    var p := FindFirst(text, '\n');
    if p < |text| then text[p + 1..] else []
  }

  /** One turn of the loading loop. */
  lemma LoadOneLine(text: string, n: nat, now: uint64, residue: nat -> HwAddr, t: Table)
    requires text != []
    ensures LoadLines(Lines(text), n, now, residue, t) ==
              match ApplyLine(text[..FindFirst(text, '\n')], now, residue(n), t)
              case None => None
              case Some(next) => LoadLines(Lines(AfterLine(text)), n + 1, now, residue, next)
  {
    var lines := Lines(text);
    assert lines == [text[..FindFirst(text, '\n')]] + Lines(AfterLine(text));
    assert lines[1..] == Lines(AfterLine(text));
  }

  /** The entries of `t` under the listed keys that `load_leases` keeps. */
  function Kept(t: Table, order: seq<HwAddr>, now: uint64): Table
    requires forall k :: k in order ==> k in t
  {
    map k | k in order && t[k].expiry >= now :: t[k]
  }

  lemma {:induction false} LoadRestores(t: Table, order: seq<HwAddr>, n: nat, now: uint64, residue: nat -> HwAddr, found: Table)
    requires forall k :: k in order ==> k in t
    ensures LoadLines(Lines(FileText(t, order)), n, now, residue, found) == Some(found + Kept(t, order, now))
    decreases |order|
  {
    if order == [] {
      assert found + Kept(t, order, now) == found;
    } else {
      var k, rest := order[0], order[1..];
      var line := LineText(k, t[k]);
      LineRoundTrip(k, t[k], now, residue(n));
      LinesCons(line, FileText(t, rest));
      var next := if t[k].expiry < now then found else found[k := t[k]];
      LoadRestores(t, rest, n + 1, now, residue, next);
      KeptCons(t, order, now, found);
      var lines := Lines(FileText(t, order));
      assert lines[0] == line && lines[1..] == Lines(FileText(t, rest));
    }
  }

  lemma LinesCons(line: string, rest: string)
    requires '\n' !in line
    ensures Lines(line + ['\n'] + rest) == [line] + Lines(rest)
  {
    var text := line + ['\n'] + rest;
    FirstIsAfter(line, '\n', rest);
    assert text[..|line|] == line && text[|line| + 1..] == rest;
  }

  /** Text behind the last newline is a line of its own, if there is any. */
  lemma LastLine(line: string)
    requires '\n' !in line
    ensures Lines(line) == if line == "" then [] else [line]
  {
    FirstIsNowhere(line, '\n');
    assert line[..|line|] == line;
  }

  lemma KeptCons(t: Table, order: seq<HwAddr>, now: uint64, found: Table)
    requires order != [] && forall k :: k in order ==> k in t
    ensures var k := order[0];
            var next := if t[k].expiry < now then found else found[k := t[k]];
            next + Kept(t, order[1..], now) == found + Kept(t, order, now)
  {
    assert forall k :: k in order <==> k == order[0] || k in order[1..];
  }

  /** Reading at `loaded` what was written at `written` restores exactly the entries with
      `expiry > written` and `expiry >= loaded`, for every table and in whatever order the lines
      were written. */
  lemma FileRoundTrip(t: Table, written: uint64, loaded: uint64, order: seq<HwAddr>, residue: nat -> HwAddr)
    requires Lists(order, Purge(t, written).Keys)
    ensures var loadedTable := Load(FileText(Purge(t, written), order), loaded, residue);
            && loadedTable == Some(Reload(t, written, loaded))
            && forall k :: (k in loadedTable.value <==> k in t && t[k].expiry > written && t[k].expiry >= loaded)
                 && (k in loadedTable.value ==> loadedTable.value[k] == t[k])
  {
    LoadRestores(Purge(t, written), order, 0, loaded, residue, map[]);
    KeptIsReloaded(t, written, loaded, order);
  }

  lemma KeptIsReloaded(t: Table, written: uint64, loaded: uint64, order: seq<HwAddr>)
    requires Lists(order, Purge(t, written).Keys)
    ensures map[] + Kept(Purge(t, written), order, loaded) == Reload(t, written, loaded)
  {
  }
}
