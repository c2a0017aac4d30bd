/**
 * Commit and tag objects (GitCommit.cpp): the key-value-list-with-message
 * ("KVLM") codec. A commit is a map from header key to the list of that
 * key's values, in the order they appeared; the free-text message is kept
 * under the empty key. Header values may span several lines; every line
 * after the first starts with one space, which the parser drops and the
 * serializer puts back.
 */
module Kvlm {
  import opened Bytes
  import opened Ordering
  import opened Objects

  type Dict = map<bytes, seq<bytes>>

  // ---------------------------------------------------------------------
  // replace_all
  // ---------------------------------------------------------------------

  /**
   * `s[i..]` with every occurrence of `before` replaced by `after`, scanning
   * left to right and never rescanning replaced text.
   */
  function ReplacedFrom<T(==)>(s: seq<T>, before: seq<T>, after: seq<T>, i: nat): seq<T>
    requires |before| > 0 && i <= |s|
    decreases |s| - i
  {
    if |s| - i < |before| then s[i..]
    else if OccursAt(s, before, i) then after + ReplacedFrom(s, before, after, i + |before|)
    else [s[i]] + ReplacedFrom(s, before, after, i + 1)
  }

  function Replaced<T(==)>(s: seq<T>, before: seq<T>, after: seq<T>): seq<T>
    requires |before| > 0
  {
    ReplacedFrom(s, before, after, 0)
  }

  /** Where the next occurrence is, the result copies the text up to it and then `after`. */
  lemma {:induction false} ReplacedFromFound<T>(s: seq<T>, before: seq<T>, after: seq<T>, from: nat, i: nat)
    requires |before| > 0 && from <= |s| && FindSeq(s, before, from) == Some(i)
    ensures i + |before| <= |s|
    ensures ReplacedFrom(s, before, after, from)
         == s[from..i] + after + ReplacedFrom(s, before, after, i + |before|)
    decreases |s| - from
  {
    if from < i {
      assert !OccursAt(s, before, from);
      ReplacedFromFound(s, before, after, from + 1, i);
      ConsSlice(s, from, i, after, ReplacedFrom(s, before, after, i + |before|));
    } else {
      assert s[from..i] == [];
    }
  }

  lemma ConsSlice<T>(s: seq<T>, from: nat, i: nat, b: seq<T>, c: seq<T>)
    requires from < i <= |s|
    ensures [s[from]] + (s[from + 1..i] + b + c) == s[from..i] + b + c
  {
    assert s[from..i] == [s[from]] + s[from + 1..i];
  }

  /** With no occurrence left, the rest of the text is copied unchanged. */
  lemma {:induction false} ReplacedFromNone<T>(s: seq<T>, before: seq<T>, after: seq<T>, from: nat)
    requires |before| > 0 && from <= |s| && FindSeq(s, before, from) == None
    ensures ReplacedFrom(s, before, after, from) == s[from..]
    decreases |s| - from
  {
    if |s| - from >= |before| {
      ReplacedFromNone(s, before, after, from + 1);
      assert s[from..] == [s[from]] + s[from + 1..];
    }
  }

  /** `FindSeq` gives the same answer on two texts that agree from the search start on. */
  lemma {:induction false} FindSeqSameSuffix<T>(x: seq<T>, y: seq<T>, pat: seq<T>, p: nat, q: nat)
    requires p <= |x| && q <= |y| && x[p..] == y[q..]
    ensures FindSeq(x, pat, p).None? <==> FindSeq(y, pat, q).None?
    ensures FindSeq(x, pat, p).Some? ==> FindSeq(y, pat, q).value - q == FindSeq(x, pat, p).value - p
    decreases |x| - p
  {
    if p + |pat| <= |x| {
      assert x[p..p + |pat|] == x[p..][..|pat|] == y[q..][..|pat|] == y[q..q + |pat|];
      if x[p..p + |pat|] != pat {
        assert x[p + 1..] == x[p..][1..] == y[q..][1..] == y[q + 1..];
        FindSeqSameSuffix(x, y, pat, p + 1, q + 1);
      }
    }
  }

  /** replace_all: rewrites `s2` in place, resuming each search after the text just inserted. */
  method ReplaceAll<T(==)>(s: seq<T>, before: seq<T>, after: seq<T>) returns (s2: seq<T>)
    requires |before| > 0
    ensures s2 == Replaced(s, before, after)
  {
    s2 := s;
    var idx := FindSeq(s2, before, 0);
    var from: nat := 0;          // where the search resumes in s2
    ghost var done: seq<T> := []; // s2[..from]: text already rewritten
    ghost var j: nat := 0;       // s2[from..] is s[j..]
    while idx.Some?
      invariant j <= |s| && s2 == done + s[j..] && from == |done|
      invariant done + ReplacedFrom(s, before, after, j) == Replaced(s, before, after)
      invariant idx == FindSeq(s2, before, from)
      decreases |s| - j
    {
      var i := idx.value;
      ghost var i' := Relocate(s, done, j, before, i);
      ghost var done', j' := ReplaceStep(s, s2, done, j, before, after, i, i');
      s2 := s2[..i] + after + s2[i + |before|..];
      done, j := done', j';
      from := i + |after|;
      idx := FindSeq(s2, before, from);
    }
    ReplaceDone(s, done, j, before, after);
  }

  /**
   * One round of replace_all's loop: the occurrence found at `i` in the
   * rewritten text is the first one at or after `j` in `s`; replacing it
   * moves it, rewritten, into the done part.
   */
  lemma ReplaceStep<T>(s: seq<T>, s2: seq<T>, done: seq<T>, j: nat, before: seq<T>, after: seq<T>, i: nat, i': nat)
    returns (done': seq<T>, j': nat)
    requires |before| > 0 && j <= |s| && s2 == done + s[j..]
    requires FindSeq(s, before, j) == Some(i') && i == |done| + i' - j
    ensures j < j' <= |s| && |done'| == i + |after|
    ensures s2[..i] + after + s2[i + |before|..] == done' + s[j'..]
    ensures done' + ReplacedFrom(s, before, after, j') == done + ReplacedFrom(s, before, after, j)
  {
    ReplacedFromFound(s, before, after, j, i');
    done' := done + s[j..i'] + after;
    j' := i' + |before|;
    Prepend(done, s[j..i'], after, ReplacedFrom(s, before, after, j'), ReplacedFrom(s, before, after, j));
    SpliceAt(done, s, j, i', i, |before|, after);
  }

  lemma Prepend<T>(done: seq<T>, x: seq<T>, after: seq<T>, r: seq<T>, whole: seq<T>)
    requires whole == x + after + r
    ensures done + x + after + r == done + whole
  {
    Regroup(done, x, after, r);
  }

  /** The occurrence found at `i` in `done + s[j..]`, searching from `|done|`, is the first one at or after `j` in `s`. */
  lemma Relocate<T>(s: seq<T>, done: seq<T>, j: nat, before: seq<T>, i: nat) returns (i': nat)
    requires j <= |s| && FindSeq(done + s[j..], before, |done|) == Some(i)
    ensures FindSeq(s, before, j) == Some(i') && i == |done| + i' - j
  {
    assert (done + s[j..])[|done|..] == s[j..];
    FindSeqSameSuffix(done + s[j..], s, before, |done|, j);
    i' := FindSeq(s, before, j).value;
  }

  /** Cutting `done + s[j..]` at the occurrence `s[i'..i' + n]` and splicing in `after`. */
  lemma SpliceAt<T>(done: seq<T>, s: seq<T>, j: nat, i': nat, i: nat, n: nat, after: seq<T>)
    requires j <= i' && i' + n <= |s| && i == |done| + i' - j
    ensures var s2 := done + s[j..];
            s2[..i] + after + s2[i + n..] == done + s[j..i'] + after + s[i' + n..]
  {
    var s2 := done + s[j..];
    assert s2[..i] == done + s[j..i'];
    assert s2[i + n..] == s[i' + n..];
  }

  /** When no occurrence is left after `from`, replace_all's result is complete. */
  lemma ReplaceDone<T>(s: seq<T>, done: seq<T>, j: nat, before: seq<T>, after: seq<T>)
    requires |before| > 0 && j <= |s|
    requires done + ReplacedFrom(s, before, after, j) == Replaced(s, before, after)
    requires FindSeq(done + s[j..], before, |done|) == None
    ensures done + s[j..] == Replaced(s, before, after)
  {
    assert (done + s[j..])[|done|..] == s[j..];
    FindSeqSameSuffix(done + s[j..], s, before, |done|, j);
    ReplacedFromNone(s, before, after, j);
  }

  /** The escaping kvlm_serialize applies to a header value: every "\n" becomes "\n ". */
  function Escape(v: bytes): bytes
  {
    if v == [] then [] else (if v[0] == LF then [LF, SP] else [v[0]]) + Escape(v[1..])
  }

  /** The unescaping kvlm_parse applies to a header value: every "\n " becomes "\n". */
  function Unescape(v: bytes): bytes
  {
    if |v| < 2 then v
    else if v[0] == LF && v[1] == SP then [LF] + Unescape(v[2..])
    else [v[0]] + Unescape(v[1..])
  }

  /** replace_all(v, "\n", "\n ") is `Escape`. */
  lemma {:induction false} EscapeIsReplaced(s: bytes, i: nat)
    requires i <= |s|
    ensures ReplacedFrom(s, [LF], [LF, SP], i) == Escape(s[i..])
    decreases |s| - i
  {
    if i < |s| {
      EscapeIsReplaced(s, i + 1);
      assert s[i..][1..] == s[i + 1..];
      assert s[i..i + 1] == [s[i]];
    }
  }

  /** replace_all(v, "\n ", "\n") is `Unescape`. */
  lemma {:induction false} UnescapeIsReplaced(s: bytes, i: nat)
    requires i <= |s|
    ensures ReplacedFrom(s, [LF, SP], [LF], i) == Unescape(s[i..])
    decreases |s| - i
  {
    if |s| - i >= 2 {
      var t := s[i..];
      assert s[i..i + 2] == [LF, SP] <==> t[0] == LF && t[1] == SP;
      if t[0] == LF && t[1] == SP {
        UnescapeIsReplaced(s, i + 2);
        assert t[2..] == s[i + 2..];
      } else {
        UnescapeIsReplaced(s, i + 1);
        assert t[1..] == s[i + 1..];
      }
    }
  }

  /** The serializer's replace_all call computes `Escape`. */
  lemma EscapeByReplaceAll(v: bytes)
    ensures Replaced(v, [LF], [LF, SP]) == Escape(v)
  {
    EscapeIsReplaced(v, 0);
    assert v[0..] == v;
  }

  /** The parser's replace_all call computes `Unescape`. */
  lemma UnescapeByReplaceAll(v: bytes)
    ensures Replaced(v, [LF, SP], [LF]) == Unescape(v)
  {
    UnescapeIsReplaced(v, 0);
    assert v[0..] == v;
  }

  /** Unescaping undoes escaping, for every value. */
  lemma {:induction false} UnescapeEscape(v: bytes)
    ensures Unescape(Escape(v)) == v
    decreases |v|
  {
    if v != [] {
      var w := v[1..];
      UnescapeEscape(w);
      var e := Escape(w);
      if v[0] == LF {
        var x := [LF, SP] + e;
        assert x[2..] == e;
      } else {
        var x := [v[0]] + e;
        assert x[1..] == e;
        if |e| == 0 {
          assert x == [v[0]];
        }
      }
      assert v == [v[0]] + w;
    }
  }

  /** In an escaped value every newline is followed by a space. */
  lemma {:induction false} EscapedNewlinesContinue(v: bytes)
    ensures forall i | 0 <= i < |Escape(v)| && Escape(v)[i] == LF ::
              i + 1 < |Escape(v)| && Escape(v)[i + 1] == SP
    decreases |v|
  {
    if v != [] {
      EscapedNewlinesContinue(v[1..]);
    }
  }

  // ---------------------------------------------------------------------
  // kvlm_parse
  // ---------------------------------------------------------------------

  /**
   * kvlm_parse's base case at `start`: there is no space, or no newline, or
   * the first newline comes before the first space.
   */
  predicate AtMessage(raw: bytes, start: nat)
    requires start <= |raw|
  {
    var spc := Find(raw, SP, start);
    var nl := Find(raw, LF, start);
    spc.None? || nl.None? || nl.value < spc.value
  }

  /**
   * Where the `while (true)` loop of kvlm_parse leaves `ending` when it
   * starts from `ending == e`: the first newline after `e` that is not
   * followed by a space, or the last newline seen if there is no further one.
   */
  function ValueEnd(raw: bytes, e: nat): (r: nat)
    requires e < |raw|
    ensures e <= r < |raw|
    ensures Find(raw, LF, e + 1).Some? ==> Find(raw, LF, e + 1).value <= r
    decreases |raw| - e
  {
    match Find(raw, LF, e + 1)
    case None => e
    case Some(p) => if p + 1 < |raw| && raw[p + 1] == SP then ValueEnd(raw, p) else p
  }

  /**
   * kvlm_parse at `start`, and every recursive call it makes, stays inside
   * the buffer. The C++ code reads past the end when a call starts at the end
   * of the buffer (GitCommit.cpp:77) or when a header's terminating newline
   * is the last byte (GitCommit.cpp:99); both reach a call at `|raw|`.
   */
  predicate Defined(raw: bytes, start: nat)
    decreases |raw| - start
  {
    start < |raw| && (AtMessage(raw, start) || Defined(raw, HeaderAt(raw, start).next))
  }

  /** The shape of a header line: start <= space < first newline <= end of the value. */
  lemma HeaderShape(raw: bytes, start: nat)
    requires start < |raw| && !AtMessage(raw, start)
    ensures Find(raw, SP, start).Some? && Find(raw, LF, start).Some?
    ensures start <= Find(raw, SP, start).value < Find(raw, LF, start).value
            <= ValueEnd(raw, start)
  {
    var nl := Find(raw, LF, start).value;
    assert raw[start] != LF;
    assert Find(raw, LF, start + 1) == Some(nl);
  }

  /** A header kvlm_parse reads: its key, its value with "\n " turned back into "\n", and where the next call starts. */
  datatype Header = Header(key: bytes, value: bytes, next: nat)

  /** The header at `start`: the key runs to the first space, the value from there to `ValueEnd`. */
  function HeaderAt(raw: bytes, start: nat): (h: Header)
    requires start < |raw| && !AtMessage(raw, start)
    ensures start < h.next
  {
    HeaderShape(raw, start);
    var spc := Find(raw, SP, start).value;
    var e := ValueEnd(raw, start);
    Header(raw[start..spc], Unescape(raw[spc + 1..e]), e + 1)
  }

  /** `dct` with `value` appended to the list of `key` (a new list if absent). */
  function Append(dct: Dict, key: bytes, value: bytes): Dict
  {
    if key in dct then dct[key := dct[key] + [value]] else dct[key := [value]]
  }

  /** Appending keeps every key and every stored value, and adds `value` at the end of `key`'s list. */
  lemma AppendExtends(dct: Dict, key: bytes, value: bytes)
    ensures var r := Append(dct, key, value);
            && r.Keys == dct.Keys + {key}
            && r[key] == (if key in dct then dct[key] else []) + [value]
            && Extends(r, dct)
  {
  }

  /**
   * The map kvlm_parse leaves in `dct` when called at `start`: each header
   * appends its value to its key's list, and the message is inserted under
   * the empty key unless that key is already taken (`std::map::insert`).
   * Where the C++ code reads outside the buffer (`start` at or past the end)
   * its behaviour is undefined; `Defined` excludes those inputs for
   * kvlm_parse, and this function just returns `dct` there.
   */
  function Parse(raw: bytes, start: nat, dct: Dict): Dict
    decreases |raw| - start
  {
    if |raw| <= start then dct
    else if AtMessage(raw, start) then
      if [] in dct then dct else dct[[] := [raw[start + 1..]]]
    else
      var h := HeaderAt(raw, start);
      Parse(raw, h.next, Append(dct, h.key, h.value))
  }

  /** `big` holds every key of `small`, and each of its lists starts with `small`'s list. */
  predicate Extends(big: Dict, small: Dict)
  {
    && small.Keys <= big.Keys
    && forall k | k in small :: |small[k]| <= |big[k]| && big[k][..|small[k]|] == small[k]
  }

  lemma ExtendsTransitive(a: Dict, b: Dict, c: Dict)
    requires Extends(b, a) && Extends(c, b)
    ensures Extends(c, a)
  {
    forall k | k in a ensures |a[k]| <= |c[k]| && c[k][..|a[k]|] == a[k] {
      assert c[k][..|b[k]|][..|a[k]|] == c[k][..|a[k]|];
    }
  }

  /** Parsing never removes a key nor rewrites a value already stored; it only appends. */
  lemma {:induction false} ParseExtends(raw: bytes, start: nat, dct: Dict, r: Dict)
    requires r == Parse(raw, start, dct)
    ensures Extends(r, dct)
    decreases |raw| - start
  {
    if start < |raw| && !AtMessage(raw, start) {
      var h := HeaderAt(raw, start);
      var d' := Append(dct, h.key, h.value);
      AppendExtends(dct, h.key, h.value);
      ParseExtends(raw, h.next, d', r);
      ExtendsTransitive(dct, d', r);
    }
  }

  /** kvlm_parse: fills `dct` from `raw` at `start` (the map passed by reference is returned). */
  method KvlmParse(raw: bytes, start: nat, dct: Dict) returns (out: Dict)
    requires Defined(raw, start)
    ensures out == Parse(raw, start, dct)
    decreases |raw| - start
  {
    var spc := Find(raw, SP, start);
    var nl := Find(raw, LF, start);
    if spc.None? || nl.None? || nl.value < spc.value {
      var value := raw[start + 1..];
      out := if [] in dct then dct else dct[[] := [value]];
      return;
    }
    assert !AtMessage(raw, start);
    ghost var h := HeaderAt(raw, start);
    HeaderFacts(raw, start, dct);
    var key, value, ending := ReadHeader(raw, start, spc.value);
    var dct' := if key in dct then dct[key := dct[key] + [value]] else dct[key := [value]];
    assert dct' == Append(dct, h.key, h.value);
    out := KvlmParse(raw, ending + 1, dct');
  }

  /** The body of kvlm_parse's recursive case up to the map update: reads the key, finds the value's end, unescapes the value. */
  method ReadHeader(raw: bytes, start: nat, spc: nat) returns (key: bytes, value: bytes, ending: nat)
    requires start < |raw| && !AtMessage(raw, start) && Find(raw, SP, start) == Some(spc)
    requires ValueEnd(raw, start) + 1 < |raw|
    ensures HeaderAt(raw, start) == Header(key, value, ending + 1)
  {
    HeaderShape(raw, start);
    key := raw[start..spc];
    ending := ValueLoop(raw, start);
    value := raw[spc + 1..ending];
    ghost var v := value;
    value := ReplaceAll(value, [LF, SP], [LF]);
    UnescapeByReplaceAll(v);
    HeaderAtDef(raw, start, spc, ending);
  }

  /** `HeaderAt`, spelt out for a given space and value end. */
  lemma HeaderAtDef(raw: bytes, start: nat, spc: nat, e: nat)
    requires start < |raw| && !AtMessage(raw, start)
    requires Find(raw, SP, start) == Some(spc) && e == ValueEnd(raw, start)
    ensures spc < e && HeaderAt(raw, start) == Header(raw[start..spc], Unescape(raw[spc + 1..e]), e + 1)
  {
    HeaderShape(raw, start);
  }

  /** What kvlm_parse's recursive case relies on, in the terms it computes them. */
  lemma HeaderFacts(raw: bytes, start: nat, dct: Dict)
    requires Defined(raw, start) && !AtMessage(raw, start)
    ensures Find(raw, SP, start).Some? && ValueEnd(raw, start) + 1 < |raw|
    ensures var h := HeaderAt(raw, start);
            && h.next == ValueEnd(raw, start) + 1
            && h.key == raw[start..Find(raw, SP, start).value]
            && h.value == Unescape(raw[Find(raw, SP, start).value + 1..ValueEnd(raw, start)])
            && Defined(raw, h.next)
            && Parse(raw, start, dct) == Parse(raw, h.next, Append(dct, h.key, h.value))
  {
    ParseStep(raw, start, dct);
    DefinedNext(raw, start);
  }

  /**
   * kvlm_parse's `while (true)` loop: from `ending = start`, jump to each
   * next newline until one is not followed by a space (or none is left).
   */
  method ValueLoop(raw: bytes, start: nat) returns (ending: nat)
    requires start < |raw| && ValueEnd(raw, start) + 1 < |raw|
    ensures ending == ValueEnd(raw, start)
  {
    ghost var last := ValueEnd(raw, start);
    ending := start;
    while true
      invariant start <= ending < |raw|
      invariant ValueEnd(raw, ending) == last
      decreases |raw| - ending
    {
      var next := Find(raw, LF, ending + 1);
      ValueEndStep(raw, start, ending, next);
      if next.None? {
        return;
      }
      ending := next.value;
      if raw[ending + 1] != SP {
        return;
      }
    }
  }

  /** After a header, kvlm_parse's next call is defined too. */
  lemma DefinedNext(raw: bytes, start: nat)
    requires Defined(raw, start) && !AtMessage(raw, start)
    ensures ValueEnd(raw, start) + 1 < |raw| && Defined(raw, ValueEnd(raw, start) + 1)
  {
  }

  /** One round of kvlm_parse's value loop: where it stops, it stops at `ValueEnd`. */
  lemma ValueEndStep(raw: bytes, start: nat, ending: nat, next: Option<nat>)
    requires start <= ending < |raw| && ValueEnd(raw, start) + 1 < |raw|
    requires ValueEnd(raw, ending) == ValueEnd(raw, start)
    requires next == Find(raw, LF, ending + 1)
    ensures next.None? ==> ending == ValueEnd(raw, start)
    ensures next.Some? ==> next.value + 1 < |raw|
    ensures next.Some? && raw[next.value + 1] == SP ==> ValueEnd(raw, next.value) == ValueEnd(raw, start)
    ensures next.Some? && raw[next.value + 1] != SP ==> next.value == ValueEnd(raw, start)
  {
  }

  /**
   * The base case, stated on the bytes: when from `start` on there is no
   * space, or no newline, or a newline at `n` with no space before it, the
   * bytes after `start` become the message, unless the empty key is taken.
   */
  lemma ParseMessage(raw: bytes, start: nat, n: nat, dct: Dict)
    requires start < |raw|
    requires || (forall k | start <= k < |raw| :: raw[k] != SP)
             || (forall k | start <= k < |raw| :: raw[k] != LF)
             || (start <= n < |raw| && raw[n] == LF && forall k | start <= k < n :: raw[k] != SP)
    ensures Defined(raw, start)
    ensures Parse(raw, start, dct) == if [] in dct then dct else dct[[] := [raw[start + 1..]]]
  {
    var spc, nl := Find(raw, SP, start), Find(raw, LF, start);
    FindFirstOccurrence(raw, SP, start);
    FindFirstOccurrence(raw, LF, start);
    if spc.Some? && nl.Some? && !(forall k | start <= k < |raw| :: raw[k] != SP)
       && !(forall k | start <= k < |raw| :: raw[k] != LF) {
      assert nl.value <= n;
    }
    assert AtMessage(raw, start);
  }

  /**
   * The recursive case, stated on the bytes: the key runs from `start` to the
   * first space `spc` (and holds no newline), the value runs to the first
   * newline `e` not followed by a space, every "\n " inside the value becomes
   * "\n", and parsing resumes after `e`.
   */
  lemma ParseHeader(raw: bytes, start: nat, spc: nat, e: nat, dct: Dict)
    requires start <= spc < e && e + 1 < |raw|
    requires raw[spc] == SP && forall k | start <= k < spc :: raw[k] != SP && raw[k] != LF
    requires raw[e] == LF && raw[e + 1] != SP
    requires forall k | spc < k < e :: Continues(raw, k)
    requires Defined(raw, e + 1)
    ensures Defined(raw, start)
    ensures Parse(raw, start, dct)
         == Parse(raw, e + 1, Append(dct, raw[start..spc], Unescape(raw[spc + 1..e])))
  {
    var key, value := raw[start..spc], Unescape(raw[spc + 1..e]);
    assert !AtMessage(raw, start) && HeaderAt(raw, start) == Header(key, value, e + 1) by {
      HeaderAtIs(raw, start, spc, e);
    }
    ParseStepAt(raw, start, dct, key, value, e + 1);
  }

  /** Under `ParseHeader`'s conditions, `HeaderAt` reads that header. */
  lemma HeaderAtIs(raw: bytes, start: nat, spc: nat, e: nat)
    requires start <= spc < e && e + 1 < |raw|
    requires raw[spc] == SP && forall k | start <= k < spc :: raw[k] != SP && raw[k] != LF
    requires raw[e] == LF && raw[e + 1] != SP
    requires forall k | spc < k < e :: Continues(raw, k)
    ensures !AtMessage(raw, start)
    ensures HeaderAt(raw, start) == Header(raw[start..spc], Unescape(raw[spc + 1..e]), e + 1)
  {
    assert Find(raw, SP, start) == Some(spc) by { FindFirst(raw, SP, start, spc); }
    var nl := Find(raw, LF, start);
    assert nl.Some? && spc < nl.value <= e by {
      FindFirstOccurrence(raw, LF, start);
      assert raw[spc] != LF;
    }
    ValueEndAt(raw, start, e);
  }

  /** One unfolding of `Parse` and `Defined` at a header. */
  lemma ParseStep(raw: bytes, start: nat, dct: Dict)
    requires start < |raw| && !AtMessage(raw, start)
    ensures var h := HeaderAt(raw, start);
            && (Defined(raw, start) <==> Defined(raw, h.next))
            && Parse(raw, start, dct) == Parse(raw, h.next, Append(dct, h.key, h.value))
  {
  }

  /** `ParseStep` for a header already read. */
  lemma ParseStepAt(raw: bytes, start: nat, dct: Dict, key: bytes, value: bytes, next: nat)
    requires start < |raw| && !AtMessage(raw, start)
    requires HeaderAt(raw, start) == Header(key, value, next)
    ensures Defined(raw, start) <==> Defined(raw, next)
    ensures Parse(raw, start, dct) == Parse(raw, next, Append(dct, key, value))
  {
    ParseStep(raw, start, dct);
  }

  /** A newline at `k` is followed by a space: the value goes on on the next line. */
  predicate Continues(raw: bytes, k: nat)
  {
    k + 1 < |raw| && (raw[k] == LF ==> raw[k + 1] == SP)
  }


  /** The value loop stops at the first newline not followed by a space. */
  lemma {:induction false} ValueEndAt(raw: bytes, e0: nat, e: nat)
    requires e0 < e && e + 1 < |raw|
    requires raw[e] == LF && raw[e + 1] != SP
    requires forall k | e0 < k < e :: Continues(raw, k)
    ensures ValueEnd(raw, e0) == e
    decreases e - e0
  {
    var p := Find(raw, LF, e0 + 1);
    FindFirstOccurrence(raw, LF, e0 + 1);
    assert p.Some? && p.value <= e;
    if p.value < e {
      assert Continues(raw, p.value);
      ValueEndAt(raw, p.value, e);
    }
  }

  /** The message is kept under the empty key. */
  function Message(dct: Dict): seq<bytes>
  {
    if [] in dct then dct[[]] else []
  }

  // ---------------------------------------------------------------------
  // kvlm_serialize
  // ---------------------------------------------------------------------

  /** One header entry as kvlm_serialize writes it: the key, a space, the escaped value. */
  function Entry(key: bytes, v: bytes): bytes
  {
    key + [SP] + Escape(v)
  }

  /** The entries of one key, one per value, with nothing between them. */
  function Entries(key: bytes, vals: seq<bytes>): bytes
  {
    if vals == [] then [] else Entries(key, vals[..|vals| - 1]) + Entry(key, vals[|vals| - 1])
  }

  /** What the outer loop of kvlm_serialize writes for `key`: nothing for the message key. */
  function Piece(dct: Dict, key: bytes): bytes
  {
    if key == [] || key !in dct then [] else Entries(key, dct[key])
  }

  /** The header bytes for `keys`, in order. */
  function Headers(dct: Dict, keys: seq<bytes>): bytes
  {
    if keys == [] then [] else Headers(dct, keys[..|keys| - 1]) + Piece(dct, keys[|keys| - 1])
  }

  function Concat(vs: seq<bytes>): bytes
  {
    if vs == [] then [] else Concat(vs[..|vs| - 1]) + vs[|vs| - 1]
  }

  /**
   * What kvlm_serialize emits: the header entries of every non-empty key in
   * ascending key order, with no separator between entries, then one
   * newline, then the message values concatenated.
   */
  ghost function Serialized(dct: Dict): bytes
  {
    Headers(dct, SortedBytes(dct.Keys)) + [LF] + Concat(Message(dct))
  }

  /** The serialized form always ends with the newline and the message. */
  lemma SerializedEndsWithMessage(dct: Dict)
    ensures var s := Serialized(dct); var m := Concat(Message(dct));
            |s| > |m| && s[|s| - |m| - 1] == LF && s[|s| - |m|..] == m
  {
    var s := Serialized(dct);
    var m := Concat(Message(dct));
    var h := Headers(dct, SortedBytes(dct.Keys));
    assert s == h + [LF] + m;
    assert s[|h|] == LF;
    assert s[|h| + 1..] == m;
  }

  // ---------------------------------------------------------------------
  // serialize after deserialize
  // ---------------------------------------------------------------------

  /** A header key kvlm_parse reads whole: not empty, with no space and no newline. */
  predicate PlainKey(k: bytes)
  {
    k != [] && forall i | 0 <= i < |k| :: k[i] != SP && k[i] != LF
  }

  /** A value on one line. */
  predicate OneLine(v: bytes)
  {
    forall i | 0 <= i < |v| :: v[i] != LF
  }

  /** One header line: the key, a space, the value and a newline. */
  function Line(k: bytes, v: bytes): bytes
  {
    k + [SP] + v + [LF]
  }

  /** A commit with the headers `a: x` and `b: y`, a blank line and the message `m`. */
  function TwoHeaders(a: bytes, x: bytes, b: bytes, y: bytes, m: bytes): bytes
  {
    Line(a, x) + Line(b, y) + [LF] + m
  }

  /** A commit with the header `a: v`, a blank line and the message `m`. */
  function OneHeader(a: bytes, v: bytes, m: bytes): bytes
  {
    Line(a, v) + [LF] + m
  }

  /** What kvlm_serialize writes for the headers `a: x` and `b: y` and the message `m`. */
  function RunOn(a: bytes, x: bytes, b: bytes, y: bytes, m: bytes): bytes
  {
    a + [SP] + x + b + [SP] + y + [LF] + m
  }

  /**
   * A header line `k v` at `start`, not followed by a space, is appended and
   * parsing resumes just after it.
   */
  lemma ParseLaidOut(raw: bytes, start: nat, k: bytes, v: bytes, dct: Dict)
    requires PlainKey(k) && OneLine(v)
    requires start + |Line(k, v)| < |raw| && raw[start..start + |Line(k, v)|] == Line(k, v)
    requires raw[start + |Line(k, v)|] != SP && Defined(raw, start + |Line(k, v)|)
    ensures Defined(raw, start)
    ensures Parse(raw, start, dct) == Parse(raw, start + |Line(k, v)|, Append(dct, k, v))
  {
    var l := Line(k, v);
    var spc, e := start + |k|, start + |k| + 1 + |v|;
    forall i | 0 <= i < |l|
      ensures raw[start + i] == l[i]
    {
      assert raw[start..start + |l|][i] == l[i];
    }
    assert raw[spc] == l[|k|] == SP && raw[e] == l[|l| - 1] == LF;
    forall i | start <= i < spc
      ensures raw[i] != SP && raw[i] != LF
    {
      assert raw[i] == l[i - start] == k[i - start];
    }
    forall i | spc < i < e
      ensures Continues(raw, i)
    {
      assert raw[i] == l[i - start] == v[i - spc - 1];
    }
    assert raw[start..spc] == k by {
      forall i | 0 <= i < |k|
        ensures raw[start..spc][i] == k[i]
      {
        assert raw[start + i] == l[i] == k[i];
      }
    }
    assert raw[spc + 1..e] == v by {
      forall i | 0 <= i < |v|
        ensures raw[spc + 1..e][i] == v[i]
      {
        assert raw[spc + 1 + i] == l[|k| + 1 + i] == v[i];
      }
    }
    UnescapeNoNewline(v);
    assert Append(dct, raw[start..spc], Unescape(raw[spc + 1..e])) == Append(dct, k, v);
    ParseHeader(raw, start, spc, e, dct);
  }

  /** Two one-line headers, a blank line and a message parse to those two keys and the message. */
  lemma ParseTwoHeaders(a: bytes, x: bytes, b: bytes, y: bytes, m: bytes)
    requires PlainKey(a) && PlainKey(b) && a != b && OneLine(x) && OneLine(y)
    ensures Defined(TwoHeaders(a, x, b, y, m), 0)
    ensures Parse(TwoHeaders(a, x, b, y, m), 0, map[]) == map[a := [x], b := [y], [] := [m]]
  {
    var raw := TwoHeaders(a, x, b, y, m);
    var n1, n2 := |Line(a, x)|, |Line(a, x)| + |Line(b, y)|;
    assert n2 < |raw| && raw[0..n1] == Line(a, x) && raw[n1..n2] == Line(b, y);
    assert raw[n2] == LF && raw[n2 + 1..] == m;
    var d1 := Append(map[], a, x);
    assert Defined(raw, n1) && Parse(raw, n1, d1) == map[a := [x], b := [y], [] := [m]] by {
      ParseLineThenMessage(raw, n1, b, y, d1, m);
      assert Append(d1, b, y) == map[a := [x], b := [y]];
    }
    SliceHead(raw, n1, n2, Line(b, y));
    ParseLaidOut(raw, 0, a, x, map[]);
  }

  /** One one-line header, a blank line and a message parse to that key and the message. */
  lemma ParseOneHeader(a: bytes, v: bytes, m: bytes)
    requires PlainKey(a) && OneLine(v)
    ensures Defined(OneHeader(a, v, m), 0)
    ensures Parse(OneHeader(a, v, m), 0, map[]) == map[a := [v], [] := [m]]
  {
    var raw := OneHeader(a, v, m);
    var n1 := |Line(a, v)|;
    assert n1 < |raw| && raw[0..n1] == Line(a, v) && raw[n1] == LF && raw[n1 + 1..] == m;
    ParseLineThenMessage(raw, 0, a, v, map[], m);
  }

  /**
   * A header line `k v` at `start` followed by a blank line and `m`: the
   * header is appended and `m` becomes the message, unless one is stored.
   */
  lemma ParseLineThenMessage(raw: bytes, start: nat, k: bytes, v: bytes, dct: Dict, m: bytes)
    requires PlainKey(k) && OneLine(v)
    requires start + |Line(k, v)| < |raw| && raw[start..start + |Line(k, v)|] == Line(k, v)
    requires raw[start + |Line(k, v)|] == LF && raw[start + |Line(k, v)| + 1..] == m
    ensures Defined(raw, start)
    ensures Parse(raw, start, dct)
         == var d := Append(dct, k, v); if [] in d then d else d[[] := [m]]
  {
    ParseMessageAt(raw, start + |Line(k, v)|, Append(dct, k, v));
    ParseLaidOut(raw, start, k, v, dct);
  }

  /** A newline at the cursor starts the message: the bytes after it. */
  lemma ParseMessageAt(raw: bytes, start: nat, dct: Dict)
    requires start < |raw| && raw[start] == LF
    ensures Defined(raw, start)
    ensures Parse(raw, start, dct) == if [] in dct then dct else dct[[] := [raw[start + 1..]]]
  {
    ParseMessage(raw, start, start, dct);
  }

  lemma SliceHead(s: bytes, i: nat, j: nat, t: bytes)
    requires i < j <= |s| && s[i..j] == t
    ensures s[i] == t[0]
  {
    assert s[i..j][0] == s[i];
  }

  /** A value without newlines is read as it is. */
  lemma {:induction false} UnescapeNoNewline(v: bytes)
    requires forall i | 0 <= i < |v| :: v[i] != LF
    ensures Unescape(v) == v
    decreases |v|
  {
    if |v| >= 2 {
      UnescapeNoNewline(v[1..]);
    }
  }

  /** Two one-line headers in key order are written one straight after the other. */
  lemma SerializeTwoHeaders(a: bytes, x: bytes, b: bytes, y: bytes, m: bytes)
    requires a != [] && LessBytes(a, b) && OneLine(x) && OneLine(y)
    ensures Serialized(map[a := [x], b := [y], [] := [m]]) == RunOn(a, x, b, y, m)
  {
    var none: bytes := [];
    var two := map[a := [x], b := [y], none := [m]];
    LessBytesIrreflexive(a);
    assert SortedBytes(two.Keys) == [none, a, b] by {
      assert two.Keys == {none, a, b};
      SortedThree(none, a, b);
    }
    assert Headers(two, [none, a, b]) == Entry(a, x) + Entry(b, y) by {
      PieceOne(two, a, x);
      PieceOne(two, b, y);
      HeadersOfThree(two, none, a, b);
    }
    assert Entry(a, x) + Entry(b, y) == a + [SP] + x + b + [SP] + y by {
      EscapeNoNewline(x);
      EscapeNoNewline(y);
    }
    assert Concat(Message(two)) == m by {
      ConcatOne(m);
    }
  }

  /** One one-line header is written as the key, a space and the value. */
  lemma SerializeOneHeader(a: bytes, v: bytes, m: bytes)
    requires a != [] && OneLine(v)
    ensures Serialized(map[a := [v], [] := [m]]) == a + [SP] + v + [LF] + m
  {
    var none: bytes := [];
    var one := map[a := [v], none := [m]];
    assert SortedBytes(one.Keys) == [none, a] by {
      assert one.Keys == {none, a};
      SortedTwo(none, a);
    }
    assert Headers(one, [none, a]) == a + [SP] + v by {
      PieceOne(one, a, v);
      HeadersOfTwo(one, none, a);
      EscapeNoNewline(v);
    }
    assert Concat(Message(one)) == m by {
      ConcatOne(m);
    }
  }

  /**
   * serialize after deserialize never gives back a commit with two
   * one-line headers: with no separator between header entries the
   * newline after the first value is lost, and the blank line before the
   * message becomes the single newline serialize writes, so the result is
   * two bytes short.
   */
  lemma ReserializeRunsOn(a: bytes, x: bytes, b: bytes, y: bytes, m: bytes)
    requires PlainKey(a) && PlainKey(b) && a != b && OneLine(x) && OneLine(y)
    ensures Defined(TwoHeaders(a, x, b, y, m), 0)
    ensures |Serialized(Parse(TwoHeaders(a, x, b, y, m), 0, map[]))| == |TwoHeaders(a, x, b, y, m)| - 2
    ensures LessBytes(a, b) ==> Serialized(Parse(TwoHeaders(a, x, b, y, m), 0, map[])) == RunOn(a, x, b, y, m)
  {
    var raw := TwoHeaders(a, x, b, y, m);
    var two := map[a := [x], b := [y], [] := [m]];
    assert Defined(raw, 0) && Parse(raw, 0, map[]) == two by {
      ParseTwoHeaders(a, x, b, y, m);
    }
    assert |raw| == |a| + |x| + |b| + |y| + 5 + |m|;
    if LessBytes(a, b) {
      SerializeTwoHeaders(a, x, b, y, m);
    } else {
      assert Serialized(two) == RunOn(b, y, a, x, m) by {
        LessBytesTotal(a, b);
        assert two == map[b := [y], a := [x], [] := [m]];
        SerializeTwoHeaders(b, y, a, x, m);
      }
    }
  }

  /**
   * A commit with headers `a: x` and `b: y` and one whose single header
   * `a` has the value "x" followed by "b y" deserialize to different maps
   * but serialize to the same bytes. So the maps kvlm_parse produces cannot
   * all be told apart after kvlm_serialize.
   */
  lemma SerializedNotInjective(a: bytes, x: bytes, b: bytes, y: bytes, m: bytes)
    requires PlainKey(a) && PlainKey(b) && LessBytes(a, b) && OneLine(x) && OneLine(y)
    ensures Defined(TwoHeaders(a, x, b, y, m), 0) && Defined(OneHeader(a, x + b + [SP] + y, m), 0)
    ensures Parse(TwoHeaders(a, x, b, y, m), 0, map[]) != Parse(OneHeader(a, x + b + [SP] + y, m), 0, map[])
    ensures Serialized(Parse(TwoHeaders(a, x, b, y, m), 0, map[]))
         == Serialized(Parse(OneHeader(a, x + b + [SP] + y, m), 0, map[]))
  {
    var v := x + b + [SP] + y;
    LessBytesIrreflexive(a);
    assert OneLine(v) by {
      forall i | 0 <= i < |v|
        ensures v[i] != LF
      {
        if i < |x| {
          assert v[i] == x[i];
        } else if i < |x| + |b| {
          assert v[i] == b[i - |x|];
        } else if i > |x| + |b| {
          assert v[i] == y[i - |x| - |b| - 1];
        }
      }
    }
    var two, one := TwoHeaders(a, x, b, y, m), OneHeader(a, v, m);
    assert Defined(two, 0) && Parse(two, 0, map[]) == map[a := [x], b := [y], [] := [m]] by {
      ParseTwoHeaders(a, x, b, y, m);
    }
    assert Defined(one, 0) && Parse(one, 0, map[]) == map[a := [v], [] := [m]] by {
      ParseOneHeader(a, v, m);
    }
    assert b in Parse(two, 0, map[]) && b !in Parse(one, 0, map[]);
    assert Serialized(map[a := [x], b := [y], [] := [m]]) == RunOn(a, x, b, y, m) by {
      SerializeTwoHeaders(a, x, b, y, m);
    }
    assert Serialized(map[a := [v], [] := [m]]) == RunOn(a, x, b, y, m) by {
      SerializeOneHeader(a, v, m);
      RunOnOneValue(a, x, b, y, m);
    }
  }

  /** The run-on bytes read as one header whose value is "x", then "b y". */
  lemma RunOnOneValue(a: bytes, x: bytes, b: bytes, y: bytes, m: bytes)
    ensures RunOn(a, x, b, y, m) == a + [SP] + (x + b + [SP] + y) + [LF] + m
  {
    var p := a + [SP];
    assert p + x + b == p + (x + b);
    assert p + (x + b) + [SP] == p + (x + b + [SP]);
    assert p + (x + b + [SP]) + y == p + (x + b + [SP] + y);
  }

  lemma ConcatOne(m: bytes)
    ensures Concat([m]) == m
  {
    var none: seq<bytes> := [];
    assert [m][..0] == none;
  }

  lemma PieceOne(dct: Dict, k: bytes, v: bytes)
    requires k != [] && k in dct && dct[k] == [v]
    ensures Piece(dct, k) == Entry(k, v)
  {
    var none: seq<bytes> := [];
    assert [v][..0] == none;
    assert Entries(k, [v]) == Entries(k, none) + Entry(k, v);
  }

  lemma HeadersOfTwo(dct: Dict, a: bytes, b: bytes)
    ensures Headers(dct, [a, b]) == Piece(dct, a) + Piece(dct, b)
  {
    assert [a, b][..1] == [a];
    assert Headers(dct, [a, b]) == Headers(dct, [a]) + Piece(dct, b);
    HeadersOfOne(dct, a);
  }

  lemma HeadersOfOne(dct: Dict, a: bytes)
    ensures Headers(dct, [a]) == Piece(dct, a)
  {
    assert [a][..0] == [];
  }

  /** A value without newlines is written as it is. */
  lemma {:induction false} EscapeNoNewline(v: bytes)
    requires forall i | 0 <= i < |v| :: v[i] != LF
    ensures Escape(v) == v
    decreases |v|
  {
    if v != [] {
      EscapeNoNewline(v[1..]);
    }
  }

  lemma HeadersOfThree(dct: Dict, a: bytes, b: bytes, c: bytes)
    ensures Headers(dct, [a, b, c]) == Piece(dct, a) + Piece(dct, b) + Piece(dct, c)
  {
    assert [a, b, c][..2] == [a, b];
    assert Headers(dct, [a, b, c]) == Headers(dct, [a, b]) + Piece(dct, c);
    HeadersOfTwo(dct, a, b);
  }

  lemma SortedTwo(a: bytes, b: bytes)
    requires LessBytes(a, b)
    ensures SortedBytes({a, b}) == [a, b]
  {
    SortedBytesSpec({a, b});
    var r := SortedBytes({a, b});
    LessBytesIrreflexive(a);
    assert r[0] in r && r[1] in r;
    if r[0] == b {
      LessBytesTransitive(a, b, a);
    }
  }

  lemma SortedThree(a: bytes, b: bytes, c: bytes)
    requires LessBytes(a, b) && LessBytes(b, c)
    ensures SortedBytes({a, b, c}) == [a, b, c]
  {
    LessBytesIsOrder();
    LessBytesIrreflexive(a);
    LessBytesTransitive(a, b, c);
    assert IsLeast(LessBytes, a, {a, b, c});
    SortedSeqUnfold(LessBytes, {a, b, c}, a);
    assert {a, b, c} - {a} == {b, c};
    SortedTwo(b, c);
  }

  // ---------------------------------------------------------------------
  // The object
  // ---------------------------------------------------------------------

  /** A commit object: its format tag and its header map (`m_dct`). */
  class Commit {
    const kind: Kind
    var dct: Dict

    constructor ()
      ensures kind == CommitKind && Format(kind) == Ascii("commit")
      ensures dct == map[]
    {
      kind := CommitKind;
      dct := map[];
    }

    /** deserialize: forgets every earlier header, then parses `data` from offset 0. */
    method Deserialize(data: bytes)
      requires Defined(data, 0)
      modifies this
      ensures dct == Parse(data, 0, map[])
    {
      dct := map[];
      dct := KvlmParse(data, 0, dct);
    }

    /** get_value: the stored list for a present key, the empty list otherwise. */
    method GetValue(key: bytes) returns (r: seq<bytes>)
      ensures key in dct ==> r == dct[key]
      ensures key !in dct ==> r == []
    {
      if key in dct {
        r := dct[key];
      } else {
        r := [];
      }
    }

    /** kvlm_serialize. */
    method Serialize() returns (ret: bytes)
      ensures ret == Serialized(dct)
    {
      var keys := SortBytes(dct.Keys);
      ret := [];
      var message: seq<bytes> := [];
      var i := 0;
      while i < |keys|
        invariant i <= |keys|
        invariant ret == Headers(dct, keys[..i])
        invariant message == MessageIn(dct, keys[..i])
      {
        var key := keys[i];
        SortedBytesHas(dct.Keys, key);
        assert keys[..i + 1][..i] == keys[..i];
        if key == [] {
          message := dct[key];
          i := i + 1;
          continue;
        }
        ret := AppendEntries(ret, key, dct[key]);
        i := i + 1;
      }
      assert keys[..i] == keys;
      MessageInAll(dct, keys);
      SortedBytesHas(dct.Keys, []);
      ret := ret + [LF];
      ret := AppendAll(ret, message);
    }
  }

  /** The `message` variable of kvlm_serialize after visiting `ks`: the list under the empty key once that key has been seen. */
  function MessageIn(dct: Dict, ks: seq<bytes>): seq<bytes>
  {
    if ks == [] then []
    else if ks[|ks| - 1] == [] && [] in dct then dct[[]]
    else MessageIn(dct, ks[..|ks| - 1])
  }

  lemma {:induction false} MessageInAll(dct: Dict, ks: seq<bytes>)
    ensures MessageIn(dct, ks) == if [] in ks && [] in dct then dct[[]] else []
  {
    if ks != [] {
      var init := ks[..|ks| - 1];
      MessageInAll(dct, init);
      assert ks == init + [ks[|ks| - 1]];
    }
  }

  /** kvlm_serialize's loop over one key's values: appends `key ' ' escaped-value` for each. */
  method AppendEntries(ret: bytes, key: bytes, val: seq<bytes>) returns (r: bytes)
    ensures r == ret + Entries(key, val)
  {
    r := ret;
    var j := 0;
    while j < |val|
      invariant j <= |val|
      invariant r == ret + Entries(key, val[..j])
    {
      var v2 := ReplaceAll(val[j], [LF], [LF, SP]);
      EscapeByReplaceAll(val[j]);
      assert val[..j + 1][..j] == val[..j];
      Assoc(ret, Entries(key, val[..j]), key + [SP] + v2);
      r := r + (key + [SP] + v2);
      j := j + 1;
    }
    assert val[..j] == val;
  }

  /** kvlm_serialize's final loop: appends the message values one after another. */
  method AppendAll(ret: bytes, vs: seq<bytes>) returns (r: bytes)
    ensures r == ret + Concat(vs)
  {
    r := ret;
    var j := 0;
    while j < |vs|
      invariant j <= |vs|
      invariant r == ret + Concat(vs[..j])
    {
      assert vs[..j + 1][..j] == vs[..j];
      Assoc(ret, Concat(vs[..j]), vs[j]);
      r := r + vs[j];
      j := j + 1;
    }
    assert vs[..j] == vs;
  }
}
