/** The in-memory configuration table (kernel/src/config.rs:17-221), updated in
    place and written out as text. */
module ConfigTable {
  import opened Bytes
  import opened ConfigText
  import opened Wrappers

  const BUFFER: nat := 4096

  /** The first entry from `i` on with this key; the length if there is none. */
  function IndexOf(t: seq<Entry>, key: seq<Byte>, i: nat): (j: nat)
    requires i <= |t|
    ensures i <= j <= |t| && (j < |t| ==> t[j].key == key)
    ensures forall k :: i <= k < j ==> t[k].key != key
    decreases |t| - i
  {
    if i == |t| || t[i].key == key then i else IndexOf(t, key, i + 1)
  }

  function Lookup(t: seq<Entry>, key: seq<Byte>): Option<seq<Byte>> {
    var i := IndexOf(t, key, 0);
    if i < |t| then Some(t[i].val) else None
  }

  /** Whether the table takes this pair. */
  predicate Accepts(t: seq<Entry>, e: Entry) {
    Fits(e) && (IndexOf(t, e.key, 0) < |t| || |t| < MAX_ENTRIES)
  }

  /** A pair is taken when key and value fit their fields and the key is there
      already or there is room for one more. */
  lemma AcceptsIff(t: seq<Entry>, e: Entry)
    ensures Accepts(t, e) <==>
            |e.key| <= 32 && |e.val| <= 128 && (|t| < 32 || exists i :: 0 <= i < |t| && t[i].key == e.key)
  {
    var i := IndexOf(t, e.key, 0);
    if i < |t| { assert t[i].key == e.key; }
  }

  function Stored(t: seq<Entry>, e: Entry): seq<Entry> {
    var i := IndexOf(t, e.key, 0);
    if i < |t| then t[i := e] else t + [e]
  }

  function Removed(t: seq<Entry>, key: seq<Byte>): seq<Entry> {
    var i := IndexOf(t, key, 0);
    if i < |t| then t[..i] + t[i + 1..] else t
  }

  predicate UniqueKeys(t: seq<Entry>) {
    forall i, j :: 0 <= i < j < |t| ==> t[i].key != t[j].key
  }

  /** An index with this key and none before it is the one found. */
  lemma IndexIs(t: seq<Entry>, key: seq<Byte>, i: nat)
    requires i <= |t| && (i < |t| ==> t[i].key == key) && forall k :: 0 <= k < i ==> t[k].key != key
    ensures IndexOf(t, key, 0) == i
  {
  }

  /** Setting a key makes it read so, leaves the others, and repeats no key. */
  lemma SetThenGet(t: seq<Entry>, e: Entry, other: seq<Byte>)
    ensures Lookup(Stored(t, e), e.key) == Some(e.val)
    ensures other != e.key ==> Lookup(Stored(t, e), other) == Lookup(t, other)
    ensures UniqueKeys(t) ==> UniqueKeys(Stored(t, e))
  {
    var i, t' := IndexOf(t, e.key, 0), Stored(t, e);
    IndexIs(t', e.key, i);
    if other != e.key {
      var j := IndexOf(t, other, 0);
      IndexIs(t', other, if j < |t| then j else |t'|);
    }
  }

  /** Removing leaves the other keys; the removed one is gone exactly when it was
      there at most once. */
  lemma RemoveThenGet(t: seq<Entry>, key: seq<Byte>, other: seq<Byte>)
    ensures other != key ==> Lookup(Removed(t, key), other) == Lookup(t, other)
    ensures Lookup(Removed(t, key), key) == None <==>
            forall i, j :: 0 <= i < j < |t| ==> t[i].key != key || t[j].key != key
  {
    var i, t' := IndexOf(t, key, 0), Removed(t, key);
    assert forall k :: 0 <= k < |t'| && i < |t| ==> t'[k] == if k < i then t[k] else t[k + 1];
    if other != key {
      var j := IndexOf(t, other, 0);
      if i < |t| { IndexIs(t', other, if j < i then j else j - 1); }
    }
    RemovedGone(t, key);
  }

  lemma RemovedGone(t: seq<Entry>, key: seq<Byte>)
    ensures Lookup(Removed(t, key), key) == None <==>
            forall i, j :: 0 <= i < j < |t| ==> t[i].key != key || t[j].key != key
  {
    var i, t' := IndexOf(t, key, 0), Removed(t, key);
    if i < |t| {
      assert forall k :: 0 <= k < |t'| ==> t'[k] == if k < i then t[k] else t[k + 1];
      assert forall k :: i < k < |t| ==> t[k] == t'[k - 1];
      var j := IndexOf(t', key, 0);
      if j < |t'| { assert i < j + 1 && t[j + 1].key == key; }
    }
  }

  /** The text flushed after a set reads back as the new table exactly when every
      entry is one a line can carry and the text fits its buffer but for the last
      newline. */
  lemma FlushedTextReadsBackIff(t: seq<Entry>, e: Entry)
    requires IsTable(t) && Accepts(t, e)
    ensures var t' := Stored(t, e);
            && IsTable(t')
            && (Parse(Cut(Text(t'), BUFFER), MAX_ENTRIES) == t' <==> AllClean(t') && |Text(t')| <= BUFFER + 1)
  {
    hide Parse, Cut, Text, AllClean;
    RoundTripIff(Stored(t, e), BUFFER);
  }

  // ------------------------------------------------------------- the table

  class Config {
    const table: array<Entry>
    var n: nat

    ghost predicate Valid()
      reads this, table
    {
      table.Length == MAX_ENTRIES && n <= MAX_ENTRIES && AllFit(table[..n])
    }

    ghost function Contents(): seq<Entry>
      requires Valid()
      reads this, table
    {
      table[..n]
    }

    constructor ()
      ensures Valid() && fresh(table) && Contents() == []
    {
      table := new Entry[MAX_ENTRIES](_ => Entry([], []));
      n := 0;
    }

    method Clear()
      requires Valid()
      modifies this
      ensures Valid() && Contents() == [] && n == 0
    {
      n := 0;
    }

    method Append(e: Entry)
      requires Valid() && n < MAX_ENTRIES && Fits(e)
      modifies this, table
      ensures Valid() && Contents() == old(Contents()) + [e] && n == old(n) + 1
    {
      table[n] := e;
      n := n + 1;
    }

    /** Replaces the table by what the text says. */
    method ParseConfig(data: seq<Byte>)
      requires Valid()
      modifies this, table
      ensures Valid() && Contents() == Parse(data, MAX_ENTRIES)
    {
      hide Parse, ParseLine, Find, Fits, AllFit, Config.Contents;
      Clear();
      var i := 0;
      assert data[0..] == data;
      while i < |data| && n < MAX_ENTRIES
        invariant 0 <= i <= |data| && Valid()
        invariant Contents() + Parse(data[i..], MAX_ENTRIES - n) == Parse(data, MAX_ENTRIES)
        decreases |data| - i
      {
        var start := i;
        i := LineEnd(data, i);
        var line := data[start..i];
        ParseUnfolds(data, start, i, MAX_ENTRIES - n);
        if i < |data| { i := i + 1; }
        var parsed := ReadLine(line);
        if parsed.Some? {
          Append(parsed.value);
        }
      }
      ParseEnds(data[i..], MAX_ENTRIES - n);
    }

    /** Writes the text into `buf`, as much of it as fits. */
    method Serialise(buf: array<Byte>) returns (pos: nat)
      requires Valid()
      modifies buf
      ensures Valid() && pos <= buf.Length && buf[..pos] == Cut(Text(Contents()), buf.Length)
    {
      hide Cut, Text, EntryText;
      pos := 0;
      var i := 0;
      CutNothing(buf[..0], buf.Length);
      while i < n
        invariant 0 <= i <= n && Valid() && Contents() == old(Contents()) && pos <= buf.Length
        invariant buf[..pos] == Cut(Text(Contents()[..i]), buf.Length)
      {
        var e := table[i];
        TextGrows(Contents(), i);
        if e.key != [] {
          ghost var before := Text(Contents()[..i]);
          pos := Push(buf, pos, e.key, before);
          pos := Push(buf, pos, [EQUALS], before + e.key);
          pos := Push(buf, pos, e.val, before + e.key + [EQUALS]);
          pos := Push(buf, pos, [NEWLINE], before + e.key + [EQUALS] + e.val);
        }
        i := i + 1;
      }
      assert Contents()[..n] == Contents();
    }

    method Get(key: seq<Byte>) returns (r: Option<seq<Byte>>)
      requires Valid()
      ensures r == Lookup(Contents(), key)
    {
      var i := Search(key);
      r := if i < n then Some(table[i].val) else None;
    }

    method Search(key: seq<Byte>) returns (i: nat)
      requires Valid()
      ensures i == IndexOf(Contents(), key, 0)
    {
      i := 0;
      while i < n
        invariant 0 <= i <= n && IndexOf(Contents(), key, i) == IndexOf(Contents(), key, 0)
      {
        if table[i].key == key { return; }
        i := i + 1;
      }
    }

    /** Sets a key in memory; what is flushed is the text of the new table. */
    method Set(key: seq<Byte>, val: seq<Byte>) returns (ok: bool)
      requires Valid()
      modifies this, table
      ensures Valid() && ok == old(Accepts(Contents(), Entry(key, val)))
      ensures Contents() == if ok then Stored(old(Contents()), Entry(key, val)) else old(Contents())
    {
      hide IndexOf;
      if KEY_MAX < |key| || VAL_MAX < |val| { return false; }
      var i := Search(key);
      if i == n {
        if MAX_ENTRIES <= n { return false; }
        n := n + 1;
      }
      table[i] := Entry(key, val);
      ok := true;
    }

    /** Moves the entries behind `i` down by one. */
    method ShiftDown(i: nat)
      requires Valid() && i < n
      modifies table
      ensures table[..n - 1] == old(table[..i]) + old(table[i + 1..n])
    {
      hide AllFit;
      var j := i;
      while j < n - 1
        invariant i <= j <= n - 1
        invariant forall k :: 0 <= k < MAX_ENTRIES ==>
                    table[k] == if i <= k < j then old(table[k + 1]) else old(table[k])
      {
        table[j] := table[j + 1];
        j := j + 1;
      }
    }

    method Remove(key: seq<Byte>) returns (ok: bool)
      requires Valid()
      modifies this, table
      ensures Valid() && ok == (old(Lookup(Contents(), key)) != None)
      ensures Contents() == Removed(old(Contents()), key)
    {
      hide IndexOf, Fits;
      var i := Search(key);
      if i == n { return false; }
      ghost var was := Contents();
      ShiftDown(i);
      ghost var now := table[..n - 1];
      assert was[..i] == old(table[..i]) && was[i + 1..] == old(table[i + 1..n]);
      table[n - 1] := Entry([], []);
      n := n - 1;
      assert Contents() == now;
      FitAfterRemove(was, i);
      ok := true;
    }
  }

  lemma FitAfterRemove(t: seq<Entry>, i: nat)
    requires AllFit(t) && i < |t|
    ensures AllFit(t[..i] + t[i + 1..])
  {
  }

  method LineEnd(data: seq<Byte>, start: nat) returns (i: nat)
    requires start <= |data|
    ensures i == Find(data, NEWLINE, start)
  {
    i := start;
    while i < |data| && data[i] != NEWLINE
      invariant start <= i <= |data| && Find(data, NEWLINE, i) == Find(data, NEWLINE, start)
    {
      i := i + 1;
    }
  }

  /** The entry of one line, cut to what the table can hold. */
  method ReadLine(line: seq<Byte>) returns (r: Option<Entry>)
    ensures r == ParseLine(line) && (r.Some? ==> Fits(r.value))
  {
    if line == [] { return None; }
    var l := if line[|line| - 1] == RETURN then line[..|line| - 1] else line;
    assert l == Trimmed(line);
    hide Find, Trimmed;
    var eq := 0;
    FindFrom(l, 0);
    while eq < |l| && l[eq] != EQUALS
      invariant 0 <= eq <= |l| && Find(l, EQUALS, eq) == Find(l, EQUALS, 0)
    {
      FindFrom(l, eq);
      eq := eq + 1;
    }
    FindFrom(l, eq);
    if eq == |l| { return None; }
    r := Some(Entry(l[..eq][..Min(eq, KEY_MAX)], l[eq + 1..][..Min(|l| - eq - 1, VAL_MAX)]));
    assert l[..eq][..Min(eq, KEY_MAX)] == l[..Min(eq, KEY_MAX)];
  }

  lemma FindFrom(l: seq<Byte>, i: nat)
    requires i <= |l|
    ensures Find(l, EQUALS, i) == if i < |l| && l[i] != EQUALS then Find(l, EQUALS, i + 1) else i
  {
  }

  lemma ParseEnds(data: seq<Byte>, room: nat)
    requires data == [] || room == 0
    ensures Parse(data, room) == []
  {
  }

  lemma ParseUnfolds(data: seq<Byte>, start: nat, end: nat, room: nat)
    requires start < |data| && end == Find(data, NEWLINE, start) && 0 < room
    ensures var rest := data[if end < |data| then end + 1 else end..];
            Parse(data[start..], room) ==
              match ParseLine(data[start..end])
              case None => Parse(rest, room)
              case Some(x) => [x] + Parse(rest, room - 1)
  {
    hide ParseLine, Find;
    var s := data[start..];
    FindShifts(data, NEWLINE, start, end);
    assert s != [] && s[..end - start] == data[start..end];
    assert AfterLine(s, end - start) == data[if end < |data| then end + 1 else end..];
  }

  lemma FindShifts(data: seq<Byte>, b: Byte, start: nat, end: nat)
    requires start <= |data| && end == Find(data, b, start)
    ensures Find(data[start..], b, 0) == end - start
  {
    var j := Find(data[start..], b, 0);
    assert forall k :: 0 <= k < j ==> data[start..][k] == data[start + k];
    assert end < |data| ==> data[start..][end - start] == b;
  }

  lemma CutNothing(nothing: seq<Byte>, cap: nat)
    requires nothing == []
    ensures nothing == Cut(Text([]), cap) && [] == Text([])
  {
  }

  lemma TextGrows(t: seq<Entry>, i: nat)
    requires i < |t|
    ensures Text(t[..i + 1]) == Text(t[..i]) + EntryText(t[i])
    ensures t[i].key != [] ==> Text(t[..i + 1]) == Text(t[..i]) + t[i].key + [EQUALS] + t[i].val + [NEWLINE]
    ensures t[i].key == [] ==> Text(t[..i + 1]) == Text(t[..i])
  {
    assert t[..i + 1] == t[..i] + [t[i]];
    TextAppend(t[..i], t[i]);
  }

  lemma {:induction false} TextAppend(t: seq<Entry>, e: Entry)
    ensures Text(t + [e]) == Text(t) + EntryText(e)
    decreases |t|
  {
    hide EntryText;
    var te := t + [e];
    if t == [] {
      assert te == [e] && te[1..] == [];
    } else {
      TextAppend(t[1..], e);
      assert te[0] == t[0] && te[1..] == t[1..] + [e];
      assert Text(te) == EntryText(t[0]) + (Text(t[1..]) + EntryText(e));
    }
  }

  /** Appends `b` to what is in the buffer, as far as there is room. */
  method Push(buf: array<Byte>, pos: nat, b: seq<Byte>, ghost before: seq<Byte>) returns (pos': nat)
    requires pos <= buf.Length && buf[..pos] == Cut(before, buf.Length)
    modifies buf
    ensures pos' <= buf.Length && buf[..pos'] == Cut(before + b, buf.Length)
  {
    var m := Min(|b|, buf.Length - pos);
    var i := 0;
    while i < m
      invariant 0 <= i <= m && buf[..pos] == old(buf[..pos]) && buf[pos..pos + i] == b[..i]
    {
      buf[pos + i] := b[i];
      i := i + 1;
    }
    pos' := pos + m;
    assert buf[..pos'] == buf[..pos] + buf[pos..pos'];
  }
}
