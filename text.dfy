/**
 * Sequence and string helpers shared by the companion server, its client and
 * the gateway: trimming, searching, splitting and ASCII case folding. Trimming
 * and splitting are generic so that the same definitions serve the byte-level
 * request parser and the `String`-level gateway code.
 */
module Text {
  import opened Base

  /** Rust's `char::is_whitespace`: the characters with the Unicode White_Space property. */
  predicate IsWhitespace(c: char) {
    || ('\t' <= c <= '\r')
    || c == ' '
    || c == '\U{0085}'
    || c == '\U{00A0}'
    || c == '\U{1680}'
    || ('\U{2000}' <= c <= '\U{200A}')
    || c == '\U{2028}'
    || c == '\U{2029}'
    || c == '\U{202F}'
    || c == '\U{205F}'
    || c == '\U{3000}'
  }

  /** Drops the leading elements that satisfy `ws` (Rust's `trim_start`). */
  function TrimStart<T>(s: seq<T>, ws: T -> bool): (r: seq<T>)
    ensures |r| <= |s|
    ensures forall i :: 0 <= i < |s| - |r| ==> ws(s[i])
    ensures r != [] ==> !ws(r[0])
  {
    if s != [] && ws(s[0]) then TrimStart(s[1..], ws) else s
  }

  /** What `TrimStart` keeps is a suffix of its input. */
  lemma {:induction false} TrimStartSuffix<T>(s: seq<T>, ws: T -> bool)
    ensures TrimStart(s, ws) == s[|s| - |TrimStart(s, ws)|..]
    decreases |s|
  {
    if s != [] && ws(s[0]) {
      TrimStartSuffix(s[1..], ws);
      assert s[1..][|s| - 1 - |TrimStart(s[1..], ws)|..] == s[|s| - |TrimStart(s, ws)|..];
    }
  }

  /** Drops the trailing elements that satisfy `ws` (Rust's `trim_end`). */
  function TrimEnd<T>(s: seq<T>, ws: T -> bool): (r: seq<T>)
    ensures |r| <= |s| && r == s[..|r|]
    ensures forall i :: |r| <= i < |s| ==> ws(s[i])
    ensures r != [] ==> !ws(r[|r| - 1])
  {
    if s != [] && ws(s[|s| - 1]) then TrimEnd(s[..|s| - 1], ws) else s
  }

  /** Rust's `str::trim`, parameterised by the notion of whitespace. */
  function Trim<T>(s: seq<T>, ws: T -> bool): (r: seq<T>)
    ensures |r| <= |s|
    ensures r != [] ==> !ws(r[0]) && !ws(r[|r| - 1])
  {
    TrimEnd(TrimStart(s, ws), ws)
  }

  /** `s.trim().is_empty()` */
  predicate IsBlank<T>(s: seq<T>, ws: T -> bool) {
    Trim(s, ws) == []
  }

  /** A sequence is blank exactly when every element is whitespace. */
  lemma BlankIffAllWhitespace<T>(s: seq<T>, ws: T -> bool)
    ensures IsBlank(s, ws) <==> forall i :: 0 <= i < |s| ==> ws(s[i])
  {
    var a := TrimStart(s, ws);
    var k := |s| - |a|;
    TrimStartSuffix(s, ws);
    assert a != [] ==> a[0] == s[k];
    assert IsBlank(s, ws) ==> a == [];
    assert (forall i :: 0 <= i < |s| ==> ws(s[i])) ==> a == [];
  }

  /** Trimming a sequence that already has no whitespace at either end changes nothing. */
  lemma TrimTrimmed<T>(s: seq<T>, ws: T -> bool)
    requires s != [] ==> !ws(s[0]) && !ws(s[|s| - 1])
    ensures Trim(s, ws) == s
  {
  }

  /** Trimming is idempotent. */
  lemma TrimIdempotent<T>(s: seq<T>, ws: T -> bool)
    ensures Trim(Trim(s, ws), ws) == Trim(s, ws)
  {
    TrimTrimmed(Trim(s, ws), ws);
  }

  /** ASCII-only lower-casing of one character (`to_ascii_lowercase`). */
  function AsciiLowerChar(c: char): (r: char)
    ensures !('A' <= r <= 'Z')
    ensures 'A' <= c <= 'Z' ==> r as int == c as int + 32
    ensures !('A' <= c <= 'Z') ==> r == c
  {
    if 'A' <= c <= 'Z' then (c as int + 32) as char else c
  }

  function AsciiLower(s: string): (r: string)
    ensures |r| == |s|
    ensures forall i :: 0 <= i < |s| ==> r[i] == AsciiLowerChar(s[i])
  {
    if s == [] then [] else [AsciiLowerChar(s[0])] + AsciiLower(s[1..])
  }

  /** `sep` occurs in `s` starting at position `j`. */
  predicate OccursAt<T(==)>(s: seq<T>, sep: seq<T>, j: nat) {
    j + |sep| <= |s| && s[j..j + |sep|] == sep
  }

  /** The smallest position at or after `from` where `sep` occurs in `s`. */
  function FindFrom<T(==)>(s: seq<T>, sep: seq<T>, from: nat): (r: Option<nat>)
    requires |sep| > 0
    decreases |s| - from
    ensures r.Some? ==> from <= r.value && OccursAt(s, sep, r.value)
    ensures r.Some? ==> forall j: nat :: from <= j < r.value ==> !OccursAt(s, sep, j)
    ensures r.None? ==> forall j: nat :: from <= j ==> !OccursAt(s, sep, j)
  {
    if from + |sep| > |s| then None
    else if s[from..from + |sep|] == sep then Some(from)
    else FindFrom(s, sep, from + 1)
  }

  /** The first occurrence of `sep` in `s`, as `windows(n).position(..)` or `find` would report it. */
  function Find<T(==)>(s: seq<T>, sep: seq<T>): (r: Option<nat>)
    requires |sep| > 0
    ensures r.Some? ==> OccursAt(s, sep, r.value)
    ensures r.Some? ==> forall j: nat :: j < r.value ==> !OccursAt(s, sep, j)
    ensures r.None? ==> forall j: nat :: !OccursAt(s, sep, j)
  {
    FindFrom(s, sep, 0)
  }

  /** The first occurrence is determined by its defining property. */
  lemma FindIsFirst<T>(s: seq<T>, sep: seq<T>, h: nat)
    requires |sep| > 0
    requires OccursAt(s, sep, h)
    requires forall j: nat :: j < h ==> !OccursAt(s, sep, j)
    ensures Find(s, sep) == Some(h)
  {
    var r := Find(s, sep);
    assert r.Some?;
    assert r.value >= h;
    assert r.value <= h;
  }

  /** Appending more elements does not move an occurrence already found. */
  lemma FindExtend<T>(s: seq<T>, more: seq<T>, sep: seq<T>)
    requires |sep| > 0
    requires Find(s, sep).Some?
    ensures Find(s + more, sep) == Find(s, sep)
  {
    var h := Find(s, sep).value;
    assert (s + more)[h..h + |sep|] == s[h..h + |sep|];
    forall j: nat | j < h ensures !OccursAt(s + more, sep, j) {
      assert (s + more)[j..j + |sep|] == s[j..j + |sep|];
      assert !OccursAt(s, sep, j);
    }
    FindIsFirst(s + more, sep, h);
  }

  /** An occurrence in a prefix is an occurrence in the whole sequence. */
  lemma OccursInPrefix<T>(s: seq<T>, n: nat, sep: seq<T>, j: nat)
    requires n <= |s|
    requires OccursAt(s[..n], sep, j)
    ensures OccursAt(s, sep, j)
  {
    assert s[..n][j..j + |sep|] == s[j..j + |sep|];
  }

  /** Rust's `str::split` with a non-empty pattern: the pieces between non-overlapping occurrences, leftmost first. */
  function Split<T(==)>(s: seq<T>, sep: seq<T>): (parts: seq<seq<T>>)
    requires |sep| > 0
    ensures |parts| >= 1
    decreases |s|
  {
    match Find(s, sep)
    case None => [s]
    case Some(i) => [s[..i]] + Split(s[i + |sep|..], sep)
  }

  /** Concatenates `parts` with `sep` between consecutive parts. */
  function Join<T>(parts: seq<seq<T>>, sep: seq<T>): seq<T>
    requires |parts| >= 1
  {
    if |parts| == 1 then parts[0] else parts[0] + sep + Join(parts[1..], sep)
  }

  /** Splitting loses nothing: joining the pieces back gives the input. */
  lemma {:induction false} JoinSplit<T>(s: seq<T>, sep: seq<T>)
    requires |sep| > 0
    ensures Join(Split(s, sep), sep) == s
    decreases |s|
  {
    match Find(s, sep)
    case None =>
    case Some(i) =>
      var rest := s[i + |sep|..];
      SplitStep(s, sep, i);
      JoinSplit(rest, sep);
      JoinCons(s[..i], Split(rest, sep), sep);
      AroundOccurrence(s, sep, i);
  }

  /** One step of `Split`: the piece before the first occurrence, then the pieces of the rest. */
  lemma SplitStep<T>(s: seq<T>, sep: seq<T>, i: nat)
    requires |sep| > 0
    requires Find(s, sep) == Some(i)
    ensures i + |sep| <= |s|
    ensures Split(s, sep) == [s[..i]] + Split(s[i + |sep|..], sep)
  {
  }

  lemma JoinCons<T>(part: seq<T>, parts: seq<seq<T>>, sep: seq<T>)
    requires |parts| >= 1
    ensures Join([part] + parts, sep) == part + sep + Join(parts, sep)
  {
    assert ([part] + parts)[1..] == parts;
  }

  /** A sequence is the text before an occurrence, the occurrence, and the text after it. */
  lemma AroundOccurrence<T>(s: seq<T>, sep: seq<T>, i: nat)
    requires OccursAt(s, sep, i)
    ensures s == s[..i] + sep + s[i + |sep|..]
  {
    assert s == s[..i] + s[i..i + |sep|] + s[i + |sep|..];
  }

  /** Shifting an index by one: some element after the first of `s` has `p` iff some element of `s[1..]` has it. */
  lemma ExistsInTail<T>(s: seq<T>, p: T -> bool)
    requires |s| >= 1
    ensures (exists i :: 1 <= i < |s| && p(s[i])) <==> (exists i :: 0 <= i < |s[1..]| && p(s[1..][i]))
  {
    var tail := s[1..];
    if exists i :: 1 <= i < |s| && p(s[i]) {
      var i :| 1 <= i < |s| && p(s[i]);
      assert tail[i - 1] == s[i];
    }
    if exists i :: 0 <= i < |tail| && p(tail[i]) {
      var i :| 0 <= i < |tail| && p(tail[i]);
      assert s[i + 1] == tail[i];
    }
  }

  /** No piece produced by `Split` contains the separator. */
  lemma {:induction false} SplitPiecesFree<T>(s: seq<T>, sep: seq<T>, k: nat, j: nat)
    requires |sep| > 0
    requires k < |Split(s, sep)|
    ensures !OccursAt(Split(s, sep)[k], sep, j)
    decreases |s|
  {
    match Find(s, sep)
    case None =>
    case Some(i) =>
      if k == 0 {
        if OccursAt(s[..i], sep, j) {
          OccursInPrefix(s, i, sep, j);
        }
      } else {
        SplitPiecesFree(s[i + |sep|..], sep, k - 1, j);
      }
  }

  /** Rust's `split_once` on a one-element delimiter: the text before and after its first occurrence. */
  function SplitOnce<T(==)>(s: seq<T>, d: T): (r: Option<(seq<T>, seq<T>)>)
    ensures r.None? <==> d !in s
    ensures r.Some? ==> d !in r.value.0 && s == r.value.0 + [d] + r.value.1
  {
    match Find(s, [d])
    case None =>
      assert d !in s by {
        forall j | 0 <= j < |s| ensures s[j] != d {
          assert s[j..j + 1] == [s[j]];
          assert !OccursAt(s, [d], j);
        }
      }
      None
    case Some(i) =>
      assert s[i..i + 1] == [s[i]];
      assert d !in s[..i] by {
        forall j | 0 <= j < i ensures s[j] != d {
          assert s[j..j + 1] == [s[j]];
          assert !OccursAt(s, [d], j);
        }
      }
      assert s == s[..i] + [d] + s[i + 1..];
      Some((s[..i], s[i + 1..]))
  }
}
