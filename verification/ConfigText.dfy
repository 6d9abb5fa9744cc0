/** The text form of the kernel configuration (kernel/src/config.rs:49-111): one
    key=value line per entry, at most 32 of them. */
module ConfigText {
  import opened Bytes
  import opened Wrappers

  const MAX_ENTRIES: nat := 32
  const KEY_MAX: nat := 32
  const VAL_MAX: nat := 128
  const NEWLINE: Byte := 10
  const RETURN: Byte := 13
  const EQUALS: Byte := 61

  datatype Entry = Entry(key: seq<Byte>, val: seq<Byte>)

  /** What an entry of the table can hold. */
  predicate Fits(e: Entry) {
    |e.key| <= KEY_MAX && |e.val| <= VAL_MAX
  }

  predicate AllFit(t: seq<Entry>) {
    forall i :: 0 <= i < |t| ==> Fits(t[i])
  }

  predicate IsTable(t: seq<Entry>) {
    |t| <= MAX_ENTRIES && AllFit(t)
  }

  // --------------------------------------------------------------- parsing

  /** The first place of `b` in `s` from `i` on; the length if there is none. */
  function Find(s: seq<Byte>, b: Byte, i: nat): (j: nat)
    requires i <= |s|
    ensures i <= j <= |s| && (j < |s| ==> s[j] == b)
    ensures forall k :: i <= k < j ==> s[k] != b
    decreases |s| - i
  {
    if i == |s| || s[i] == b then i else Find(s, b, i + 1)
  }

  function Trimmed(line: seq<Byte>): seq<Byte> {
    if line != [] && line[|line| - 1] == RETURN then line[..|line| - 1] else line
  }

  function ParseLine(line: seq<Byte>): Option<Entry> {
    var l := Trimmed(line);
    var eq := Find(l, EQUALS, 0);
    if eq == |l| then None
    else Some(Entry(l[..Min(eq, KEY_MAX)], l[eq + 1..][..Min(|l| - eq - 1, VAL_MAX)]))
  }

  function AfterLine(data: seq<Byte>, e: nat): seq<Byte>
    requires e <= |data|
  {
    if e < |data| then data[e + 1..] else []
  }

  /** Entries of the lines of `data`, up to `room` of them. */
  function Parse(data: seq<Byte>, room: nat): (t: seq<Entry>)
    ensures |t| <= room
    decreases |data|
  {
    if data == [] || room == 0 then []
    else
      var e := Find(data, NEWLINE, 0);
      match ParseLine(data[..e])
      case None => Parse(AfterLine(data, e), room)
      case Some(x) => [x] + Parse(AfterLine(data, e), room - 1)
  }

  // ----------------------------------------------------------- serialising

  function Line(e: Entry): seq<Byte> {
    e.key + [EQUALS] + e.val
  }

  /** Entries without a key are skipped. */
  function EntryText(e: Entry): seq<Byte> {
    if e.key == [] then [] else Line(e) + [NEWLINE]
  }

  function Text(t: seq<Entry>): seq<Byte>
    decreases |t|
  {
    if t == [] then [] else EntryText(t[0]) + Text(t[1..])
  }

  /** What fits a buffer of `cap` bytes. */
  function Cut(s: seq<Byte>, cap: nat): seq<Byte> {
    s[..Min(|s|, cap)]
  }

  // ------------------------------------------------------------ round trip

  /** An entry that a line can carry. */
  predicate Clean(e: Entry) {
    && e.key != [] && EQUALS !in e.key && NEWLINE !in e.key && NEWLINE !in e.val
    && (e.val != [] ==> e.val[|e.val| - 1] != RETURN)
  }

  predicate AllClean(t: seq<Entry>) {
    forall i :: 0 <= i < |t| ==> Clean(t[i])
  }

  lemma ParseCleanLine(e: Entry)
    requires Clean(e) && Fits(e)
    ensures ParseLine(Line(e)) == Some(e)
  {
    var l := Line(e);
    assert l[|l| - 1] == if e.val == [] then EQUALS else e.val[|e.val| - 1];
    assert Trimmed(l) == l;
    assert l[|e.key|] == EQUALS && forall k :: 0 <= k < |e.key| ==> l[k] == e.key[k] && e.key[k] in e.key;
    assert Find(l, EQUALS, 0) == |e.key|;
    assert l[..|e.key|] == e.key && l[|e.key| + 1..] == e.val && e.val[..|e.val|] == e.val;
  }

  lemma CleanLineEnds(e: Entry, rest: seq<Byte>)
    requires Clean(e) && (rest == [] || rest[0] == NEWLINE)
    ensures Find(Line(e) + rest, NEWLINE, 0) == |Line(e)|
    ensures (Line(e) + rest)[..|Line(e)|] == Line(e)
  {
    var l := Line(e);
    forall k | 0 <= k < |l|
      ensures (l + rest)[k] != NEWLINE
    {
      if k < |e.key| {
        assert l[k] == e.key[k] && e.key[k] in e.key;
      } else if k > |e.key| {
        assert l[k] == e.val[k - |e.key| - 1] && e.val[k - |e.key| - 1] in e.val;
      }
    }
    assert rest != [] ==> (l + rest)[|l|] == NEWLINE;
  }

  lemma FirstAndRest(t: seq<Entry>)
    requires t != [] && AllClean(t) && AllFit(t)
    ensures Clean(t[0]) && Fits(t[0]) && AllClean(t[1..]) && AllFit(t[1..]) && t == [t[0]] + t[1..]
    ensures 1 < |t| ==> Clean(t[1])
  {
  }

  lemma ReadsNone(room: nat, n: nat)
    ensures Parse(Cut(Text([]), n), room) == []
  {
  }

  /** Clean entries read back, even when the last newline is missing. */
  lemma {:induction false} ReadsBack(t: seq<Entry>, room: nat, n: nat)
    requires AllClean(t) && |t| <= room && AllFit(t) && |Text(t)| <= n + 1
    ensures Parse(Cut(Text(t), n), room) == t
    decreases |t|
  {
    hide Parse, Text, Line, Cut, Fits, Clean, AllClean, AllFit;
    if t == [] {
      ReadsNone(room, n);
    } else {
      FirstAndRest(t);
      if |t| == 1 {
        assert t == [t[0]];
        ReadsLast(t[0], room, n);
      } else {
        TextSplits(t, n);
        var m := n - |Line(t[0])| - 1;
        ReadsBack(t[1..], room - 1, m);
        ReadsOne(t[0], Cut(Text(t[1..]), m), room);
      }
    }
  }

  lemma TextSplits(t: seq<Entry>, n: nat)
    requires 1 < |t| && Clean(t[0]) && Clean(t[1]) && |Text(t)| <= n + 1
    ensures |Line(t[0])| + 1 <= n && |Text(t[1..])| <= n - |Line(t[0])|
    ensures Cut(Text(t), n) == Line(t[0]) + ([NEWLINE] + Cut(Text(t[1..]), n - |Line(t[0])| - 1))
  {
    var rest := t[1..];
    assert rest[0] == t[1] && |Text(rest)| >= |EntryText(t[1])| >= 2;
    assert Text(t) == Line(t[0]) + ([NEWLINE] + Text(rest));
  }

  lemma ReadsOne(e: Entry, tail: seq<Byte>, room: nat)
    requires Clean(e) && Fits(e) && 0 < room
    ensures Parse(Line(e) + ([NEWLINE] + tail), room) == [e] + Parse(tail, room - 1)
  {
    hide ParseLine, Find, Clean, Fits, Line;
    var rest := [NEWLINE] + tail;
    CleanLineEnds(e, rest);
    ParseCleanLine(e);
    assert AfterLine(Line(e) + rest, |Line(e)|) == tail;
  }

  lemma ReadsLast(e: Entry, room: nat, n: nat)
    requires Clean(e) && Fits(e) && 0 < room && |Text([e])| <= n + 1
    ensures Parse(Cut(Text([e]), n), room) == [e]
  {
    var l := Line(e);
    assert [e][1..] == [] && Text([e]) == l + [NEWLINE];
    if |l| < n {
      assert Cut(Text([e]), n) == l + ([NEWLINE] + []);
      ReadsOne(e, [], room);
    } else {
      assert Cut(Text([e]), n) == l + [];
      CleanLineEnds(e, []);
      ParseCleanLine(e);
    }
  }

  // ------------------------------------------------- what cannot read back

  /** Bytes that an entry takes as a line of its own. */
  function Cost(t: seq<Entry>): nat
    decreases |t|
  {
    if t == [] then 0 else |Line(t[0])| + 1 + Cost(t[1..])
  }

  /** One more when the last line is not ended. */
  function Unended(data: seq<Byte>): nat {
    if data != [] && data[|data| - 1] != NEWLINE then 1 else 0
  }

  /** An entry never takes more than its line, and one that takes all of it has
      no reserved bytes in its key or value. */
  lemma LineCost(line: seq<Byte>)
    requires NEWLINE !in line
    ensures var x := ParseLine(line);
            x.Some? ==>
              && |Line(x.value)| <= |line|
              && (|Line(x.value)| == |line| && x.value.key != [] ==> Clean(x.value))
  {
    var l := Trimmed(line);
    var eq := Find(l, EQUALS, 0);
    if eq < |l| {
      var x := ParseLine(line).value;
      assert forall b :: b in x.key || b in x.val ==> b in line;
      assert forall b :: b in x.key ==> b != EQUALS;
      if |Line(x)| == |line| && x.val != [] {
        assert x.val[|x.val| - 1] == line[|line| - 1];
      }
    }
  }

  predicate AllKeyed(t: seq<Entry>) {
    forall i :: 0 <= i < |t| ==> t[i].key != []
  }

  lemma OneMore(x: Entry, more: seq<Entry>)
    ensures Cost([x] + more) == |Line(x)| + 1 + Cost(more)
    ensures AllClean([x] + more) <==> Clean(x) && AllClean(more)
    ensures AllKeyed([x] + more) <==> x.key != [] && AllKeyed(more)
  {
    var t := [x] + more;
    assert t[1..] == more && t[0] == x;
    assert forall i :: 0 <= i < |more| ==> more[i] == t[i + 1];
  }

  lemma UnendedRest(data: seq<Byte>, e: nat)
    requires data != [] && e == Find(data, NEWLINE, 0)
    ensures |data| + Unended(data) == e + 1 + |AfterLine(data, e)| + Unended(AfterLine(data, e))
    ensures NEWLINE !in data[..e]
  {
  }

  lemma NothingCosts(data: seq<Byte>)
    ensures Cost([]) == 0 && AllClean([]) && 0 <= Unended(data)
  {
  }

  /** What is parsed takes no more than the text, and if it takes all of it and
      every entry has a key, every entry is clean. */
  lemma {:induction false} ParseCost(data: seq<Byte>, room: nat)
    ensures Cost(Parse(data, room)) <= |data| + Unended(data)
    ensures var t := Parse(data, room); Cost(t) == |data| + Unended(data) && AllKeyed(t) ==> AllClean(t)
    decreases |data|
  {
    hide ParseLine, Line, Clean, AllClean, AllKeyed, Unended, Cost;
    if data == [] || room == 0 {
      NothingCosts(data);
    } else {
      var e := Find(data, NEWLINE, 0);
      var rest := AfterLine(data, e);
      UnendedRest(data, e);
      LineCost(data[..e]);
      match ParseLine(data[..e]) {
        case None => ParseCost(rest, room);
        case Some(x) =>
          ParseCost(rest, room - 1);
          OneMore(x, Parse(rest, room - 1));
      }
    }
  }

  /** The text is no longer than its entries cost, and shorter only for entries
      without a key. */
  lemma {:induction false} TextCost(t: seq<Entry>)
    ensures |Text(t)| <= Cost(t)
    ensures |Text(t)| == Cost(t) ==> AllKeyed(t)
    ensures Text(t) != [] ==> Text(t)[|Text(t)| - 1] == NEWLINE
    decreases |t|
  {
    if t != [] {
      hide Line;
      TextCost(t[1..]);
      assert forall i :: 0 < i < |t| ==> t[i] == t[1..][i - 1];
    }
  }

  /** A table written into `cap` bytes reads back as it was exactly when every
      entry is one a line can carry and the text is at most one byte too long,
      the last newline. */
  lemma RoundTripIff(t: seq<Entry>, cap: nat)
    requires IsTable(t)
    ensures Parse(Cut(Text(t), cap), MAX_ENTRIES) == t <==> AllClean(t) && |Text(t)| <= cap + 1
  {
    hide Parse, Text, Cost, AllClean, AllFit, AllKeyed;
    var p := Cut(Text(t), cap);
    if Parse(p, MAX_ENTRIES) == t {
      ParseCost(p, MAX_ENTRIES);
      TextCost(t);
      assert |p| + Unended(p) <= |Text(t)|;
    }
    if AllClean(t) && |Text(t)| <= cap + 1 {
      ReadsBack(t, MAX_ENTRIES, cap);
    }
  }

  // ------------------------------------------------------- any other text

  function First<T>(s: seq<T>, n: nat): seq<T> {
    if |s| <= n then s else s[..n]
  }

  lemma TrimmedIs(plain: seq<Byte>, cr: bool)
    requires plain != [] && (!cr ==> plain[|plain| - 1] != RETURN)
    ensures Trimmed(plain + (if cr then [RETURN] else [])) == plain
  {
    assert (plain + [RETURN])[..|plain|] == plain && plain + [] == plain;
  }

  lemma EqualsAt(plain: seq<Byte>, key: seq<Byte>, val: seq<Byte>)
    requires plain == key + [EQUALS] + val && EQUALS !in key
    ensures Find(plain, EQUALS, 0) == |key| && plain[..|key|] == key && plain[|key| + 1..] == val
  {
    hide Find;
    var eq := Find(plain, EQUALS, 0);
    assert plain[|key|] == EQUALS;
    assert forall k :: 0 <= k < |key| ==> plain[k] == key[k];
  }

  /** Any line with an equals sign: what is before the first one is the key, what is
      behind it the value, each as far as its field goes. One carriage return at the
      end of the line does not count. */
  lemma LineReads(key: seq<Byte>, val: seq<Byte>, cr: bool)
    requires EQUALS !in key && (!cr && val != [] ==> val[|val| - 1] != RETURN)
    ensures var line := key + [EQUALS] + val + (if cr then [RETURN] else []);
            ParseLine(line) == Some(Entry(First(key, 32), First(val, 128)))
  {
    hide Find, Trimmed;
    var plain := key + [EQUALS] + val;
    assert plain[|plain| - 1] == if val == [] then EQUALS else val[|val| - 1];
    TrimmedIs(plain, cr);
    EqualsAt(plain, key, val);
    assert plain[..Min(|key|, 32)] == First(key, 32);
    assert val[..Min(|val|, 128)] == First(val, 128);
  }

  /** A line without one gives no entry. */
  lemma JunkLine(line: seq<Byte>)
    ensures ParseLine(line).None? <==> EQUALS !in line
  {
    var l := Trimmed(line);
    if EQUALS in line {
      var i :| 0 <= i < |line| && line[i] == EQUALS;
      assert l[i] == EQUALS;
    }
  }

  function Split(data: seq<Byte>): (lines: seq<seq<Byte>>)
    decreases |data|
  {
    if data == [] then []
    else
      var e := Find(data, NEWLINE, 0);
      [data[..e]] + Split(AfterLine(data, e))
  }

  function Joined(lines: seq<seq<Byte>>): seq<Byte> {
    if lines == [] then [] else lines[0] + [NEWLINE] + Joined(lines[1..])
  }

  /** The first line of a text and what follows its newline. */
  lemma FirstLine(data: seq<Byte>) returns (line: seq<Byte>, rest: seq<Byte>)
    requires data != []
    ensures NEWLINE !in line && |rest| < |data|
    ensures data == line + [NEWLINE] + rest || (data == line && rest == [])
    ensures line == data[..Find(data, NEWLINE, 0)] && rest == AfterLine(data, Find(data, NEWLINE, 0))
    ensures Split(data) == [line] + Split(rest)
  {
    hide Find;
    var e := Find(data, NEWLINE, 0);
    line, rest := data[..e], AfterLine(data, e);
    if e < |data| { assert data == data[..e] + [data[e]] + data[e + 1..]; }
  }

  lemma ParseFirst(data: seq<Byte>, room: nat, line: seq<Byte>, rest: seq<Byte>)
    requires data != [] && 0 < room
    requires line == data[..Find(data, NEWLINE, 0)] && rest == AfterLine(data, Find(data, NEWLINE, 0))
    ensures Parse(data, room) ==
            match ParseLine(line)
            case None => Parse(rest, room)
            case Some(x) => [x] + Parse(rest, room - 1)
  {
    hide ParseLine, Find, AfterLine;
  }

  /** The lines are the text without its newlines, the last of which may be missing. */
  lemma {:induction false} SplitMeans(data: seq<Byte>)
    ensures forall i :: 0 <= i < |Split(data)| ==> NEWLINE !in Split(data)[i]
    ensures Joined(Split(data)) == data || Joined(Split(data)) == data + [NEWLINE]
    decreases |data|
  {
    hide Split, Joined;
    NoLines();
    if data != [] {
      var line, rest := FirstLine(data);
      SplitMeans(rest);
      JoinFirst(line, Split(rest));
      LineEnds(data, line, rest, Joined(Split(rest)));
    }
  }

  lemma LineEnds(data: seq<Byte>, line: seq<Byte>, rest: seq<Byte>, tail: seq<Byte>)
    requires data == line + [NEWLINE] + rest || (data == line && rest == [])
    requires (tail == rest || tail == rest + [NEWLINE]) && (rest == [] ==> tail == [])
    ensures line + [NEWLINE] + tail == data || line + [NEWLINE] + tail == data + [NEWLINE]
  {
    assert line + [NEWLINE] + (rest + [NEWLINE]) == line + [NEWLINE] + rest + [NEWLINE];
  }

  lemma NoLines()
    ensures Split([]) == [] && Joined([]) == []
  {
  }

  lemma JoinFirst(line: seq<Byte>, lines: seq<seq<Byte>>)
    ensures Joined([line] + lines) == line + [NEWLINE] + Joined(lines)
  {
    assert ([line] + lines)[1..] == lines;
  }

  function Entries(lines: seq<seq<Byte>>): seq<Entry> {
    if lines == [] then []
    else
      match ParseLine(lines[0])
      case None => Entries(lines[1..])
      case Some(x) => [x] + Entries(lines[1..])
  }

  lemma EntriesFirst(line: seq<Byte>, lines: seq<seq<Byte>>)
    ensures Entries([line] + lines) ==
            match ParseLine(line)
            case None => Entries(lines)
            case Some(x) => [x] + Entries(lines)
  {
    hide ParseLine;
    assert ([line] + lines)[1..] == lines;
  }

  lemma ParseNothing(data: seq<Byte>, room: nat)
    ensures data == [] || room == 0 ==> Parse(data, room) == []
    ensures Entries(Split([])) == []
  {
  }

  /** Parsing any text: the entries of its lines, as many as there is room for. */
  lemma {:induction false} ParseIs(data: seq<Byte>, room: nat)
    ensures Parse(data, room) == First(Entries(Split(data)), room)
    decreases |data|
  {
    hide ParseLine, Split, Parse, Entries, Find, AfterLine;
    ParseNothing(data, room);
    if data != [] && room > 0 {
      var line, rest := FirstLine(data);
      ParseFirst(data, room, line, rest);
      EntriesFirst(line, Split(rest));
      ParseIs(rest, if ParseLine(line).None? then room else room - 1);
    }
  }
}
