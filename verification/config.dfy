/**
 * The `.ini` reader and writer (ConfigParser.cpp). Values live in a map
 * from (section, key) to value. A file is modelled as its sequence of
 * lines, without line terminators: `read` consumes the lines `getline`
 * would return and `write` produces the lines it would emit.
 */
module Config {
  import opened Bytes
  import opened Ordering

  const LBRACKET: byte := 0x5B  // '['
  const RBRACKET: byte := 0x5D  // ']'
  const EQ: byte := 0x3D        // '='

  // ---------------------------------------------------------------------
  // trim
  // ---------------------------------------------------------------------

  /** `\s` of the C locale: space, tab, newline, vertical tab, form feed, carriage return. */
  predicate IsSpace(c: byte)
  {
    c == 0x20 || 0x09 <= c <= 0x0D
  }

  /** Only whitespace from `a` up to `b`. */
  predicate SpaceBetween(s: bytes, a: nat, b: nat)
    requires b <= |s|
  {
    forall k | a <= k < b :: IsSpace(s[k])
  }

  /** No whitespace at either end. */
  predicate Trimmed(r: bytes)
  {
    r == [] || (!IsSpace(r[0]) && !IsSpace(r[|r| - 1]))
  }

  /** `r` is what is left of `s` between a whitespace prefix of length `i` and a whitespace suffix. */
  predicate StripsTo(s: bytes, r: bytes, i: nat)
  {
    && i + |r| <= |s| && s[i..i + |r|] == r
    && SpaceBetween(s, 0, i) && SpaceBetween(s, i + |r|, |s|)
  }

  /** Where the whitespace run starting at `i` ends. */
  function SkipSpace(s: bytes, i: nat): (r: nat)
    requires i <= |s|
    ensures i <= r <= |s| && SpaceBetween(s, i, r)
    ensures r < |s| ==> !IsSpace(s[r])
    decreases |s| - i
  {
    if i < |s| && IsSpace(s[i]) then SkipSpace(s, i + 1) else i
  }

  /** Where the whitespace run ending at `j` starts, going no further back than `a`. */
  function SkipSpaceBack(s: bytes, a: nat, j: nat): (r: nat)
    requires a <= j <= |s|
    ensures a <= r <= j && SpaceBetween(s, r, j)
    ensures r > a ==> !IsSpace(s[r - 1])
    decreases j
  {
    if j > a && IsSpace(s[j - 1]) then SkipSpaceBack(s, a, j - 1) else j
  }

  /**
   * trim: `regex_replace` with `^\s+|\s+$` and an empty replacement, that
   * is, every leading and every trailing whitespace byte removed.
   */
  function Trim(s: bytes): (r: bytes)
    ensures Trimmed(r)
    ensures StripsTo(s, r, SkipSpace(s, 0))
  {
    var a := SkipSpace(s, 0);
    var b := SkipSpaceBack(s, a, |s|);
    s[a..b]
  }

  /** The only trimmed string `s` strips to is `Trim(s)`. */
  lemma TrimUnique(s: bytes, r: bytes, i: nat)
    requires Trimmed(r) && StripsTo(s, r, i)
    ensures r == Trim(s)
  {
    var t := Trim(s);
    var j := SkipSpace(s, 0);
    if r != [] && t != [] {
      FirstNonSpace(s, i, j);
      LastNonSpace(s, i + |r|, j + |t|);
    }
  }

  /** Two positions that both end a whitespace prefix at a non-space byte are the same. */
  lemma FirstNonSpace(s: bytes, a: nat, b: nat)
    requires a < |s| && b < |s| && !IsSpace(s[a]) && !IsSpace(s[b])
    requires SpaceBetween(s, 0, a) && SpaceBetween(s, 0, b)
    ensures a == b
  {
  }

  /** Two positions that both start a whitespace suffix just after a non-space byte are the same. */
  lemma LastNonSpace(s: bytes, a: nat, b: nat)
    requires 0 < a <= |s| && 0 < b <= |s| && !IsSpace(s[a - 1]) && !IsSpace(s[b - 1])
    requires SpaceBetween(s, a, |s|) && SpaceBetween(s, b, |s|)
    ensures a == b
  {
  }

  /** Trimming twice is trimming once. */
  lemma TrimIdempotent(s: bytes)
    ensures Trim(Trim(s)) == Trim(s)
  {
    var t := Trim(s);
    TrimOfTrimmed(t);
  }

  /** A trimmed string is its own trim. */
  lemma TrimOfTrimmed(t: bytes)
    requires Trimmed(t)
    ensures Trim(t) == t
  {
    assert t[0..0 + |t|] == t;
    TrimUnique(t, t, 0);
  }

  // ---------------------------------------------------------------------
  // The map and the line reader
  // ---------------------------------------------------------------------

  type Values = map<(bytes, bytes), bytes>

  /** `m_values.insert(entry)`: adds the entry only when the key is absent. */
  function Insert(m: Values, k: (bytes, bytes), v: bytes): (r: Values)
    ensures r.Keys == m.Keys + {k}
    ensures forall j | j in m :: r[j] == m[j]
    ensures k !in m ==> r[k] == v
  {
    if k in m then m else m[k := v]
  }

  /** The state read carries from line to line: the current section and the map. */
  datatype State = State(section: bytes, values: Values)

  /** What read does with one line. */
  function ReadLine(st: State, line: bytes): State
  {
    var t := Trim(line);
    if |t| > 0 && t[0] == LBRACKET then
      match Find(t[1..], RBRACKET, 0)
      case Some(i) => State(t[1..][..i], st.values)
      case None => st
    else
      match Find(t, EQ, 0)
      case Some(i) => State(st.section, Insert(st.values, (st.section, Trim(t[..i])), Trim(t[i + 1..])))
      case None => st
  }

  /** read over a whole sequence of lines. */
  function ReadLines(st: State, lines: seq<bytes>): State
  {
    if lines == [] then st else ReadLine(ReadLines(st, lines[..|lines| - 1]), lines[|lines| - 1])
  }

  lemma ReadLinesPrefix(st: State, lines: seq<bytes>, i: nat)
    requires i < |lines|
    ensures ReadLines(st, lines[..i + 1]) == ReadLine(ReadLines(st, lines[..i]), lines[i])
  {
    assert lines[..i + 1][..i] == lines[..i];
  }

  lemma ReadLinesSnoc(st: State, lines: seq<bytes>, line: bytes)
    ensures ReadLines(st, lines + [line]) == ReadLine(ReadLines(st, lines), line)
  {
    assert (lines + [line])[..|lines|] == lines;
  }

  /** Reading `a` then `b` is reading `a + b`. */
  lemma {:induction false} ReadLinesAppend(st: State, a: seq<bytes>, b: seq<bytes>)
    ensures ReadLines(st, a + b) == ReadLines(ReadLines(st, a), b)
    decreases |b|
  {
    if b == [] {
      assert a + b == a;
    } else {
      var init, last := b[..|b| - 1], b[|b| - 1];
      assert b == init + [last];
      assert a + b == (a + init) + [last];
      ReadLinesAppend(st, a, init);
      ReadLinesSnoc(st, a + init, last);
      ReadLinesSnoc(ReadLines(st, a), init, last);
    }
  }

  /** read never overwrites: a key present before keeps its value, and keys are only added. */
  lemma {:induction false} ReadLinesKeeps(st: State, lines: seq<bytes>)
    ensures st.values.Keys <= ReadLines(st, lines).values.Keys
    ensures forall k | k in st.values :: ReadLines(st, lines).values[k] == st.values[k]
    decreases |lines|
  {
    if lines != [] {
      ReadLinesKeeps(st, lines[..|lines| - 1]);
    }
  }

  /** Every key and value read from a line is trimmed. */
  lemma {:induction false} ReadLinesTrimmed(st: State, lines: seq<bytes>)
    ensures var r := ReadLines(st, lines).values;
            forall k | k in r && k !in st.values :: Trimmed(k.1) && Trimmed(r[k])
    decreases |lines|
  {
    if lines != [] {
      ReadLinesTrimmed(st, lines[..|lines| - 1]);
    }
  }

  /** The line, once trimmed, starts with '['. */
  predicate IsHeaderLine(line: bytes)
  {
    var t := Trim(line);
    |t| > 0 && t[0] == LBRACKET
  }

  /** A header line selects the text between '[' and the first ']' after it; values are untouched. */
  lemma ReadLineHeader(st: State, line: bytes, j: nat)
    requires IsHeaderLine(line)
    requires var t := Trim(line);
             1 <= j < |t| && t[j] == RBRACKET && forall k | 1 <= k < j :: t[k] != RBRACKET
    ensures ReadLine(st, line) == State(Trim(line)[1..j], st.values)
  {
    var s := Trim(line)[1..];
    forall k | 0 <= k < j - 1
      ensures s[k] != RBRACKET
    {
      assert s[k] == Trim(line)[k + 1];
    }
    FindFirst(s, RBRACKET, 0, j - 1);
    assert s[..j - 1] == Trim(line)[1..j];
  }

  /** A header line without a ']' after the '[' changes nothing. */
  lemma ReadLineUnclosed(st: State, line: bytes)
    requires IsHeaderLine(line)
    requires var t := Trim(line); forall k | 1 <= k < |t| :: t[k] != RBRACKET
    ensures ReadLine(st, line) == st
  {
    var s := Trim(line)[1..];
    forall k | 0 <= k < |s|
      ensures s[k] != RBRACKET
    {
      assert s[k] == Trim(line)[k + 1];
    }
  }

  /**
   * Any other line is split at its first '=': the trimmed text before it
   * is the key, the trimmed text after it the value, stored under the
   * current section unless the key is already there.
   */
  lemma ReadLineEntry(st: State, line: bytes, j: nat)
    requires !IsHeaderLine(line)
    requires var t := Trim(line); j < |t| && t[j] == EQ && forall k | 0 <= k < j :: t[k] != EQ
    ensures var t := Trim(line);
            ReadLine(st, line) == State(st.section, Insert(st.values, (st.section, Trim(t[..j])), Trim(t[j + 1..])))
  {
    FindFirst(Trim(line), EQ, 0, j);
  }

  /** Any other line without '=' changes nothing. */
  lemma ReadLineIgnored(st: State, line: bytes)
    requires !IsHeaderLine(line)
    requires var t := Trim(line); forall k | 0 <= k < |t| :: t[k] != EQ
    ensures ReadLine(st, line) == st
  {
    FindFirstOccurrence(Trim(line), EQ, 0);
  }

  /** Before the first header line, the section is "" and every entry read lands in section "". */
  lemma {:induction false} ReadLinesBeforeHeader(m: Values, lines: seq<bytes>)
    requires forall i | 0 <= i < |lines| :: !IsHeaderLine(lines[i])
    ensures var r := ReadLines(State([], m), lines);
            r.section == [] && forall k | k in r.values && k !in m :: k.0 == []
    decreases |lines|
  {
    if lines != [] {
      ReadLinesBeforeHeader(m, lines[..|lines| - 1]);
    }
  }

  // ---------------------------------------------------------------------
  // The writer
  // ---------------------------------------------------------------------

  /** The section the writer last announced after writing the keys `ks` (none yet: ""). */
  function LastSection(ks: seq<(bytes, bytes)>): bytes
  {
    if ks == [] then [] else ks[|ks| - 1].0
  }

  function Header(section: bytes): bytes
  {
    [LBRACKET] + section + [RBRACKET]
  }

  function EntryLine(key: bytes, value: bytes): bytes
  {
    key + [EQ] + value
  }

  /** Every key listed in `ks` has a value in `m` (`m_values.at` does not throw). */
  predicate KeysIn(ks: seq<(bytes, bytes)>, m: Values)
  {
    forall i | 0 <= i < |ks| :: ks[i] in m
  }

  /** What write emits for one key when the last section announced is `prev`. */
  function SectionLines(prev: bytes, k: (bytes, bytes), v: bytes): seq<bytes>
  {
    (if k.0 != prev then [Header(k.0)] else []) + [EntryLine(k.1, v)]
  }

  /**
   * The lines write emits for the keys `ks` in order: a section header
   * whenever the section differs from the last one announced, then
   * `key=value`.
   */
  function WriteLines(ks: seq<(bytes, bytes)>, m: Values): seq<bytes>
    requires KeysIn(ks, m)
  {
    if ks == [] then []
    else
      var init, k := ks[..|ks| - 1], ks[|ks| - 1];
      WriteLines(init, m) + SectionLines(LastSection(init), k, m[k])
  }

  /** The lines write appends for one key, header first when the section changes. */
  lemma SectionLinesAfter(prev: seq<bytes>, last: bytes, k: (bytes, bytes), v: bytes)
    ensures prev + SectionLines(last, k, v)
            == if k.0 != last then prev + [Header(k.0)] + [EntryLine(k.1, v)] else prev + [EntryLine(k.1, v)]
  {
  }

  lemma WriteLinesPrefix(ks: seq<(bytes, bytes)>, m: Values, i: nat)
    requires KeysIn(ks, m) && i < |ks|
    ensures KeysIn(ks[..i], m) && KeysIn(ks[..i + 1], m)
    ensures WriteLines(ks[..i + 1], m) == WriteLines(ks[..i], m) + SectionLines(LastSection(ks[..i]), ks[i], m[ks[i]])
  {
    assert ks[..i + 1][..i] == ks[..i];
  }

  /** Just the `key=value` lines for `ks`. */
  function EntryLines(ks: seq<(bytes, bytes)>, m: Values): seq<bytes>
    requires KeysIn(ks, m)
  {
    if ks == [] then [] else EntryLines(ks[..|ks| - 1], m) + [EntryLine(ks[|ks| - 1].1, m[ks[|ks| - 1]])]
  }

  /** Entries in section "" never get a header when they come first. */
  lemma {:induction false} WriteLinesNoEmptyHeader(ks: seq<(bytes, bytes)>, m: Values)
    requires KeysIn(ks, m)
    requires forall i | 0 <= i < |ks| :: ks[i].0 == []
    ensures WriteLines(ks, m) == EntryLines(ks, m)
    decreases |ks|
  {
    if ks != [] {
      var init := ks[..|ks| - 1];
      WriteLinesNoEmptyHeader(init, m);
    }
  }

  /** How many times the section differs from the one before it (the first from ""). */
  function SectionChanges(ks: seq<(bytes, bytes)>): nat
  {
    if ks == [] then 0
    else
      var init := ks[..|ks| - 1];
      SectionChanges(init) + (if ks[|ks| - 1].0 != LastSection(init) then 1 else 0)
  }

  /** One `key=value` line per entry, plus one header per change of section. */
  lemma {:induction false} WriteLinesCount(ks: seq<(bytes, bytes)>, m: Values)
    requires KeysIn(ks, m)
    ensures |WriteLines(ks, m)| == |ks| + SectionChanges(ks)
    decreases |ks|
  {
    if ks != [] {
      WriteLinesCount(ks[..|ks| - 1], m);
    }
  }

  // ---------------------------------------------------------------------
  // Written files read back
  // ---------------------------------------------------------------------

  /** No newline byte: `std::endl` ends a line and `std::getline` splits at '\n'. */
  predicate SingleLine(s: bytes)
  {
    forall i | 0 <= i < |s| :: s[i] != LF
  }

  /**
   * Entries write and read agree on: no part holds a newline (each written
   * line must come back as one line), the section has no ']', the key is
   * trimmed, holds no '=' and does not start with '[', and the value is
   * trimmed.
   */
  predicate WellFormedEntry(k: (bytes, bytes), v: bytes)
  {
    && SingleLine(k.0) && SingleLine(k.1) && SingleLine(v)
    && (forall i | 0 <= i < |k.0| :: k.0[i] != RBRACKET)
    && Trimmed(k.1) && (forall i | 0 <= i < |k.1| :: k.1[i] != EQ)
    && (k.1 == [] || k.1[0] != LBRACKET)
    && Trimmed(v)
  }

  predicate WellFormed(m: Values)
  {
    forall k | k in m :: WellFormedEntry(k, m[k])
  }

  predicate Distinct<T(==)>(ks: seq<T>)
  {
    forall i, j | 0 <= i < j < |ks| :: ks[i] != ks[j]
  }

  /** The entries of `m` whose keys are listed in `ks`. */
  function Restrict(m: Values, ks: seq<(bytes, bytes)>): Values
  {
    map k | k in m && k in ks :: m[k]
  }

  /** Listing one more key, not listed before, inserts its entry. */
  lemma RestrictSnoc(m: Values, ks: seq<(bytes, bytes)>)
    requires ks != [] && ks[|ks| - 1] in m && Distinct(ks)
    ensures var k := ks[|ks| - 1];
            Restrict(m, ks) == Insert(Restrict(m, ks[..|ks| - 1]), k, m[k])
  {
    var init, k := ks[..|ks| - 1], ks[|ks| - 1];
    assert ks == init + [k];
    forall i | 0 <= i < |init|
      ensures init[i] != k
    {
      assert init[i] == ks[i];
    }
  }

  /** A header line written for `section` selects `section`. */
  lemma ReadHeader(st: State, section: bytes)
    requires forall i | 0 <= i < |section| :: section[i] != RBRACKET
    ensures ReadLine(st, Header(section)) == State(section, st.values)
  {
    var h := Header(section);
    assert Trimmed(h);
    TrimOfTrimmed(h);
    var s := h[1..];
    assert s == section + [RBRACKET];
    assert s[0..|section|] == section;
    FindAfter(s, RBRACKET, 0, section);
    assert s[..|section|] == section;
  }

  /** An entry line is its own trim. */
  lemma EntryLineTrimmed(key: bytes, value: bytes)
    requires Trimmed(key) && Trimmed(value)
    ensures Trimmed(EntryLine(key, value))
  {
    var e := EntryLine(key, value);
    if key != [] {
      assert e[0] == key[0];
    }
    if value != [] {
      assert e[|e| - 1] == value[|value| - 1];
    }
  }

  /** A `key=value` line written for a well-formed entry stores it under the current section. */
  lemma ReadEntry(st: State, key: bytes, value: bytes)
    requires WellFormedEntry((st.section, key), value)
    ensures ReadLine(st, EntryLine(key, value)) == State(st.section, Insert(st.values, (st.section, key), value))
  {
    var e := EntryLine(key, value);
    EntryLineTrimmed(key, value);
    TrimOfTrimmed(e);
    assert e[0..|key|] == key && e[|key|] == EQ;
    FindAfter(e, EQ, 0, key);
    assert e[..|key|] == key && e[|key| + 1..] == value;
    TrimOfTrimmed(key);
    TrimOfTrimmed(value);
  }

  /** Reading the lines written for one well-formed entry selects its section and inserts it. */
  lemma ReadSectionLines(st: State, k: (bytes, bytes), v: bytes)
    requires WellFormedEntry(k, v)
    ensures ReadLines(st, SectionLines(st.section, k, v)) == State(k.0, Insert(st.values, k, v))
  {
    var e := EntryLine(k.1, v);
    var none: seq<bytes> := [];
    if k.0 != st.section {
      var h := Header(k.0);
      assert SectionLines(st.section, k, v) == [h, e];
      assert [h, e][..1] == [h] && [h][..0] == none;
      ReadHeader(st, k.0);
      assert ReadLines(st, [h]) == State(k.0, st.values);
      ReadEntry(State(k.0, st.values), k.1, v);
    } else {
      assert SectionLines(st.section, k, v) == [e];
      assert [e][..0] == none;
      ReadEntry(st, k.1, v);
    }
  }

  /** Reading what write emitted for distinct keys rebuilds exactly those entries. */
  lemma {:induction false} ReadWriteLines(ks: seq<(bytes, bytes)>, m: Values)
    requires KeysIn(ks, m)
    requires WellFormed(m) && Distinct(ks)
    ensures ReadLines(State([], map[]), WriteLines(ks, m)) == State(LastSection(ks), Restrict(m, ks))
    decreases |ks|
  {
    var st0 := State([], map[]);
    if ks == [] {
      assert Restrict(m, ks) == map[];
    } else {
      var init, k := ks[..|ks| - 1], ks[|ks| - 1];
      assert Distinct(init) && KeysIn(init, m);
      ReadWriteLines(init, m);
      var before := State(LastSection(init), Restrict(m, init));
      ReadLinesAppend(st0, WriteLines(init, m), SectionLines(LastSection(init), k, m[k]));
      assert WellFormedEntry(k, m[k]);
      ReadSectionLines(before, k, m[k]);
      RestrictSnoc(m, ks);
    }
  }

  // ---------------------------------------------------------------------
  // The parser object
  // ---------------------------------------------------------------------

  /** ConfigParser: the map `m_values`. */
  class Parser {
    var values: Values

    constructor ()
      ensures values == map[]
    {
      values := map[];
    }

    /** get: the stored value, or "" when the (section, key) pair is absent. */
    method Get(section: bytes, key: bytes) returns (r: bytes)
      ensures (section, key) in values ==> r == values[(section, key)]
      ensures (section, key) !in values ==> r == []
    {
      if (section, key) in values {
        return values[(section, key)];
      }
      return [];
    }

    /** set: stores the value unless the pair already has one. */
    method Set(section: bytes, key: bytes, value: bytes)
      modifies this
      ensures values == Insert(old(values), (section, key), value)
    {
      if (section, key) !in values {
        values := values[(section, key) := value];
      }
    }

    /**
     * read: each line is trimmed; "[name]..." selects section `name` (a
     * '[' line without ']' changes nothing), any other line with '=' is
     * split at the first '=' into a trimmed key and value stored under the
     * current section, which is "" before the first header.
     */
    method Read(lines: seq<bytes>)
      modifies this
      ensures values == ReadLines(State([], old(values)), lines).values
    {
      var section: bytes := [];
      var i := 0;
      while i < |lines|
        invariant i <= |lines|
        invariant State(section, values) == ReadLines(State([], old(values)), lines[..i])
      {
        ReadLinesPrefix(State([], old(values)), lines, i);
        var line := Trim(lines[i]);
        if |line| > 0 && line[0] == LBRACKET {
          var s := line[1..];
          var index := Find(s, RBRACKET, 0);
          if index.Some? {
            section := s[..index.value];
          }
        } else {
          var index := Find(line, EQ, 0);
          if index.Some? {
            var key := Trim(line[..index.value]);
            var value := Trim(line[index.value + 1..]);
            Set(section, key, value);
          }
        }
        i := i + 1;
      }
      assert lines[..i] == lines;
    }

    /**
     * write: one "key=value" line per entry in ascending (section, key)
     * order, with a "[section]" line before each change of section.
     */
    method Write() returns (lines: seq<bytes>)
      ensures lines == Written(values)
    {
      var m := values;
      var keys := SortPairs(m.Keys);
      SortedKeysIn(m);
      lines := [];
      var section: bytes := [];
      var i := 0;
      while i < |keys|
        invariant i <= |keys|
        invariant section == LastSection(keys[..i])
        invariant KeysIn(keys[..i], m)
        invariant lines == WriteLines(keys[..i], m)
      {
        var key := keys[i];
        ghost var prev, last := lines, section;
        if key.0 != section {
          section := key.0;
          lines := lines + [Header(section)];
        }
        lines := lines + [EntryLine(key.1, m[key])];
        SectionLinesAfter(prev, last, key, m[key]);
        WriteLinesPrefix(keys, m, i);
        i := i + 1;
      }
      assert keys[..i] == keys;
    }
  }

  /** The whole file write emits for `m`: every key, in ascending (section, key) order. */
  ghost function Written(m: Values): seq<bytes>
  {
    SortedKeysIn(m);
    WriteLines(SortedPairs(m.Keys), m)
  }

  lemma SortedKeysIn(m: Values)
    ensures KeysIn(SortedPairs(m.Keys), m)
  {
    var keys := SortedPairs(m.Keys);
    SortedPairsSpec(m.Keys);
    forall i | 0 <= i < |keys|
      ensures keys[i] in m
    {
      assert keys[i] in keys;
    }
  }

  /** What write emits for a well-formed map, read into an empty parser, is that map again. */
  lemma WriteThenRead(m: Values)
    requires WellFormed(m)
    ensures ReadLines(State([], map[]), Written(m)).values == m
  {
    var ks := SortedPairs(m.Keys);
    SortedPairsSpec(m.Keys);
    SortedPairsDistinct(m.Keys);
    ReadWriteLines(ks, m);
    assert Restrict(m, ks) == m;
  }

  // ---------------------------------------------------------------------
  // The file on disk
  // ---------------------------------------------------------------------

  /** The bytes of a file written line by line, each line ended by `std::endl`'s '\n'. */
  function FileBytes(lines: seq<bytes>): bytes
  {
    if lines == [] then [] else lines[0] + [LF] + FileBytes(lines[1..])
  }

  /**
   * The lines `std::getline` returns for a file: the text up to each '\n',
   * and a last line without '\n' as it is.
   */
  function FileLines(f: bytes): seq<bytes>
    decreases |f|
  {
    if f == [] then []
    else match Find(f, LF, 0)
      case None => [f]
      case Some(i) => [f[..i]] + FileLines(f[i + 1..])
  }

  /** Lines without newlines, written to a file, are read back by `getline` as the same lines. */
  lemma {:induction false} FileLinesOfBytes(lines: seq<bytes>)
    requires forall i | 0 <= i < |lines| :: SingleLine(lines[i])
    ensures FileLines(FileBytes(lines)) == lines
    decreases |lines|
  {
    if lines != [] {
      var f := FileBytes(lines);
      var l := lines[0];
      assert f[..|l|] == l && f[|l|] == LF;
      FindAfter(f, LF, 0, l);
      assert f[|l| + 1..] == FileBytes(lines[1..]);
      FileLinesOfBytes(lines[1..]);
    }
  }

  /** The lines write emits for well-formed entries hold no newline. */
  lemma {:induction false} WriteLinesSingle(ks: seq<(bytes, bytes)>, m: Values)
    requires KeysIn(ks, m) && WellFormed(m)
    ensures forall j | 0 <= j < |WriteLines(ks, m)| :: SingleLine(WriteLines(ks, m)[j])
    decreases |ks|
  {
    if ks != [] {
      var init, k := ks[..|ks| - 1], ks[|ks| - 1];
      assert KeysIn(init, m) by {
        forall i | 0 <= i < |init|
          ensures init[i] in m
        {
          assert init[i] == ks[i];
        }
      }
      WriteLinesSingle(init, m);
      assert WellFormedEntry(k, m[k]);
      SectionLinesSingle(LastSection(init), k, m[k]);
    }
  }

  lemma SectionLinesSingle(prev: bytes, k: (bytes, bytes), v: bytes)
    requires WellFormedEntry(k, v)
    ensures forall j | 0 <= j < |SectionLines(prev, k, v)| :: SingleLine(SectionLines(prev, k, v)[j])
  {
    var h, e := Header(k.0), EntryLine(k.1, v);
    forall i | 0 <= i < |h|
      ensures h[i] != LF
    {
      if 0 < i < |h| - 1 {
        assert h[i] == k.0[i - 1];
      }
    }
    forall i | 0 <= i < |e|
      ensures e[i] != LF
    {
      if i < |k.1| {
        assert e[i] == k.1[i];
      } else if i > |k.1| {
        assert e[i] == v[i - |k.1| - 1];
      }
    }
  }

  /**
   * What write puts in the file for a well-formed map, read back line by
   * line into an empty parser, is that map again.
   */
  lemma WriteThenReadFile(m: Values)
    requires WellFormed(m)
    ensures ReadLines(State([], map[]), FileLines(FileBytes(Written(m)))).values == m
  {
    SortedKeysIn(m);
    WriteLinesSingle(SortedPairs(m.Keys), m);
    FileLinesOfBytes(Written(m));
    WriteThenRead(m);
  }
}
