/** The text form of a list that dump_file writes and load_file reads back:
    one `key:value` line per entry, in level-0 order, each ended by a
    newline. The functions here describe that format; the methods that walk
    the list to produce it and insert from it live with the list. */
module Snapshots {
  import opened StringOrder
  import opened Sequences
  import opened Entries

  /** The separator between key and value on a line. */
  const Delimiter: char := ':'

  /** std::string::find for one character: the first position of c in s,
      with |s| standing for npos. */
  function Find(s: string, c: char): (i: nat)
    ensures i <= |s|
    ensures forall k :: 0 <= k < i ==> s[k] != c
    ensures i < |s| ==> s[i] == c
  {
    if s == [] || s[0] == c then 0 else 1 + Find(s[1..], c)
  }

  /** is_valid_line: a line is usable when it is non-empty and holds the
      delimiter somewhere. */
  function IsValidLine(line: string): (valid: bool)
    ensures valid <==> Delimiter in line
  {
    |line| > 0 && Find(line, Delimiter) < |line|
  }

  /** get_key_value_from_line: a valid line is cut at its first delimiter
      into the key before it and the value after it; an invalid line leaves
      the key and value it was handed as they were. */
  function KeyValueFromLine(line: string, key: string, value: string): (kv: (string, string))
    ensures !IsValidLine(line) ==> kv == (key, value)
    ensures IsValidLine(line) ==> line == kv.0 + [Delimiter] + kv.1 && Delimiter !in kv.0
  {
    if !IsValidLine(line) then (key, value)
    else
      var i := Find(line, Delimiter);
      assert line == line[..i] + [Delimiter] + line[i + 1..];
      (line[..i], line[i + 1..])
  }

  /** One entry as dump_file writes it, without the newline. */
  function Line(e: Entry): string
  {
    e.key + [Delimiter] + e.value
  }

  /** Everything dump_file writes for the entries es, in order. */
  function DumpText(es: seq<Entry>): string
  {
    if es == [] then [] else Line(es[0]) + ['\n'] + DumpText(es[1..])
  }

  /** The lines of DumpText(es), without their newlines. */
  function DumpLines(es: seq<Entry>): (ls: seq<string>)
    ensures |ls| == |es|
  {
    if es == [] then [] else [Line(es[0])] + DumpLines(es[1..])
  }

  /** The lines std::getline yields from a text: the pieces between
      newlines, the newline itself dropped; a last piece with no newline
      after it is yielded only when it is non-empty. */
  function Lines(text: string): (ls: seq<string>)
    ensures forall l :: l in ls ==> '\n' !in l
    decreases |text|
  {
    if text == [] then []
    else
      var i := Find(text, '\n');
      if i == |text| then [text] else [text[..i]] + Lines(text[i + 1..])
  }

  /** What load_file does to the entries es, line by line. The key and value
      live across lines: a valid line replaces them, an invalid one keeps the
      previous pair, and the pair is inserted unless either half is empty. */
  function LoadEntries(es: seq<Entry>, lines: seq<string>, key: string, value: string): seq<Entry>
    decreases lines
  {
    if lines == [] then es
    else
      var kv := KeyValueFromLine(lines[0], key, value);
      var es' := if kv.0 == [] || kv.1 == [] then es else InsertSorted(es, kv.0, kv.1);
      LoadEntries(es', lines[1..], kv.0, kv.1)
  }

  /** An entry that survives the text form: a non-empty key without the
      delimiter or a newline, and a non-empty value without a newline. */
  predicate Storable(e: Entry)
  {
    |e.key| > 0 && Delimiter !in e.key && '\n' !in e.key &&
    |e.value| > 0 && '\n' !in e.value
  }

  /** A stored line splits back into the entry it was written from. */
  lemma LineSplits(e: Entry, key: string, value: string)
    requires Storable(e)
    ensures KeyValueFromLine(Line(e), key, value) == (e.key, e.value)
  {
    var l := Line(e);
    assert l[|e.key|] == Delimiter;
    forall k | 0 <= k < |e.key|
      ensures l[k] != Delimiter
    {
      assert l[k] == e.key[k];
    }
    assert Find(l, Delimiter) == |e.key|;
    assert l[..|e.key|] == e.key;
    assert l[|e.key| + 1..] == e.value;
  }

  /** Reading the dump back line by line yields exactly the lines written. */
  lemma {:induction false} LinesOfDump(es: seq<Entry>)
    requires forall e :: e in es ==> Storable(e)
    ensures Lines(DumpText(es)) == DumpLines(es)
  {
    if es != [] {
      var l := Line(es[0]);
      var text := DumpText(es);
      assert es[0] in es;
      forall j | 0 <= j < |l|
        ensures l[j] != '\n'
      {
        if j < |es[0].key| {
          assert l[j] == es[0].key[j];
        } else if j > |es[0].key| {
          assert l[j] == es[0].value[j - |es[0].key| - 1];
        }
      }
      assert text[|l|] == '\n';
      forall k | 0 <= k < |l|
        ensures text[k] != '\n'
      {
        assert text[k] == l[k];
      }
      assert Find(text, '\n') == |l|;
      assert text[..|l|] == l;
      assert text[|l| + 1..] == DumpText(es[1..]);
      assert forall e :: e in es[1..] ==> e in es;
      LinesOfDump(es[1..]);
    }
  }

  /** Loading the lines of sorted storable entries after entries that all
      come before them appends them in order. */
  lemma {:induction false} LoadAppends(pre: seq<Entry>, rest: seq<Entry>, key: string, value: string)
    requires StrictlySorted(pre + rest)
    requires forall e :: e in rest ==> Storable(e)
    ensures LoadEntries(pre, DumpLines(rest), key, value) == pre + rest
    decreases rest
  {
    if rest != [] {
      var e := rest[0];
      assert e in rest;
      LineSplits(e, key, value);
      assert (pre + rest)[|pre|] == e;
      forall j | 0 <= j < |pre|
        ensures Less(pre[j].key, e.key)
      {
        assert (pre + rest)[j] == pre[j];
      }
      LessIrreflexive(e.key);
      assert !HasKey(pre, e.key);
      assert Pos(pre, e.key) == |pre|;
      assert InsertSorted(pre, e.key, e.value) == pre + [e];
      assert pre + rest == (pre + [e]) + rest[1..];
      assert forall e' :: e' in rest[1..] ==> e' in rest;
      LoadAppends(pre + [e], rest[1..], e.key, e.value);
    }
  }

  /** The snapshot round trip: loading the dump of a sorted list of storable
      entries into an empty list rebuilds exactly that list. */
  lemma DumpLoad(es: seq<Entry>)
    requires StrictlySorted(es)
    requires forall e :: e in es ==> Storable(e)
    ensures LoadEntries([], Lines(DumpText(es)), [], []) == es
  {
    LinesOfDump(es);
    assert [] + es == es;
    LoadAppends([], es, [], []);
  }

  /** Loading the lines of entries that are all present already changes
      nothing: insertion rejects every key. */
  lemma {:induction false} LoadPresent(es: seq<Entry>, rest: seq<Entry>, key: string, value: string)
    requires forall e :: e in rest ==> Storable(e) && e in es
    ensures LoadEntries(es, DumpLines(rest), key, value) == es
  {
    if rest != [] {
      var e := rest[0];
      assert e in rest;
      LineSplits(e, key, value);
      assert HasKey(es, e.key);
      assert forall e' :: e' in rest[1..] ==> e' in rest;
      LoadPresent(es, rest[1..], e.key, e.value);
    }
  }

  /** Reloading a snapshot into the list it was taken from leaves the list
      as it was. */
  lemma ReloadUnchanged(es: seq<Entry>)
    requires forall e :: e in es ==> Storable(e)
    ensures LoadEntries(es, Lines(DumpText(es)), [], []) == es
  {
    LinesOfDump(es);
    LoadPresent(es, es, [], []);
  }

  /** A key holding the delimiter does not survive: its line is cut at the
      key's own first delimiter, so the entry reads back under the part of
      the key before it, the rest of the key joining the value. */
  lemma DelimiterInKeySplits(a: string, b: string, v: string, key: string, value: string)
    requires Delimiter !in a
    ensures KeyValueFromLine(Line(Entry(a + [Delimiter] + b, v)), key, value) ==
            (a, b + [Delimiter] + v)
  {
    var l := Line(Entry(a + [Delimiter] + b, v));
    assert l == a + [Delimiter] + (b + [Delimiter] + v);
    forall k | 0 <= k < |a|
      ensures l[k] != Delimiter
    {
      assert l[k] == a[k];
    }
    assert l[|a|] == Delimiter;
    assert Find(l, Delimiter) == |a|;
    assert l[..|a|] == a;
    assert l[|a| + 1..] == b + [Delimiter] + v;
  }

  /** The dump of a suffix is its first line followed by the dump of the rest. */
  lemma DumpTextFrom(es: seq<Entry>, k: int)
    requires 0 <= k < |es|
    ensures DumpText(es[k..]) == Line(es[k]) + ['\n'] + DumpText(es[k + 1..])
  {
    assert es[k..][1..] == es[k + 1..];
  }
}
