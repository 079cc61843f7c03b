/** The Python string built-ins the pipeline relies on: substring search (`in`),
    `split`, `join`, `strip`, `isalnum` and `lower`. */
module Text {
  import opened Wrappers

  /** `sub` occurs in `s` starting at index `i`. */
  predicate OccursAt(s: string, sub: string, i: int) {
    0 <= i && i + |sub| <= |s| && s[i..i + |sub|] == sub
  }

  /** The first index at or after `from` where `sub` occurs. */
  function FindFrom(s: string, sub: string, from: nat): (r: Option<nat>)
    ensures r.Some? ==> from <= r.value && OccursAt(s, sub, r.value)
    ensures forall i :: from <= i && (r.None? || i < r.value) ==> !OccursAt(s, sub, i)
    decreases |s| - from
  {
    if from + |sub| > |s| then None
    else if s[from..from + |sub|] == sub then Some(from)
    else FindFrom(s, sub, from + 1)
  }

  /** The first occurrence of `sub` in `s` (`s.find(sub)`, with `None` for -1). */
  function Find(s: string, sub: string): Option<nat> {
    FindFrom(s, sub, 0)
  }

  /** `sub in s`. */
  predicate Contains(s: string, sub: string) {
    Find(s, sub).Some?
  }

  /** `sub in s` holds exactly when `sub` occurs somewhere in `s`. */
  lemma ContainsIff(s: string, sub: string)
    ensures Contains(s, sub) <==> exists i :: OccursAt(s, sub, i)
  {
    if Find(s, sub).Some? {
      assert OccursAt(s, sub, Find(s, sub).value);
    }
  }

  /** An occurrence at `i` with none before it is what `Find` returns. */
  lemma FindIsFirst(s: string, sub: string, i: nat)
    requires OccursAt(s, sub, i)
    requires forall j :: 0 <= j < i ==> !OccursAt(s, sub, j)
    ensures Find(s, sub) == Some(i)
  {
  }

  /** `s.split(sep)` for a non-empty separator: the pieces between the
      non-overlapping occurrences of `sep`, found from left to right. */
  function Split(s: string, sep: string): (r: seq<string>)
    requires sep != []
    ensures |r| >= 1
    ensures |r| >= 2 <==> Contains(s, sep)
    decreases |s|
  {
    match Find(s, sep)
    case None => [s]
    case Some(i) => [s[..i]] + Split(s[i + |sep|..], sep)
  }

  /** `sep.join(parts)`. */
  function Join(sep: string, parts: seq<string>): string {
    if |parts| == 0 then ""
    else if |parts| == 1 then parts[0]
    else parts[0] + sep + Join(sep, parts[1..])
  }

  /** Joining the pieces of a split with the same separator gives back the string. */
  lemma {:induction false} SplitJoin(s: string, sep: string)
    requires sep != []
    ensures Join(sep, Split(s, sep)) == s
    decreases |s|
  {
    match Find(s, sep)
    case None =>
    case Some(i) =>
      var rest := s[i + |sep|..];
      SplitJoin(rest, sep);
      assert Split(s, sep)[1..] == Split(rest, sep);
      assert s == s[..i] + sep + rest;
  }

  /** No piece of a split contains the separator. */
  lemma {:induction false} SplitPieces(s: string, sep: string)
    requires sep != []
    ensures forall k :: 0 <= k < |Split(s, sep)| ==> !Contains(Split(s, sep)[k], sep)
    decreases |s|
  {
    match Find(s, sep)
    case None =>
    case Some(i) =>
      var rest := s[i + |sep|..];
      SplitPieces(rest, sep);
      var head := s[..i];
      ContainsIff(head, sep);
      PrefixOccurrences(s, sep, i);
      assert Split(s, sep) == [head] + Split(rest, sep);
  }

  /** A prefix of a string without `sub` has no `sub` either. */
  lemma PrefixLacks(s: string, sub: string, i: nat)
    requires i <= |s| && !Contains(s, sub)
    ensures !Contains(s[..i], sub)
  {
    ContainsIff(s, sub);
    ContainsIff(s[..i], sub);
    PrefixOccurrences(s, sub, i);
  }

  /** Being a prefix is transitive and survives dropping the same number of characters. */
  lemma PrefixFacts(x: string, y: string, z: string, k: nat)
    requires x <= y <= z && k <= |x|
    ensures x <= z && x == z[..|x|] && y == z[..|y|]
    ensures x[k..] <= z[k..] && y[k..] <= z[k..]
  {
    assert x == y[..|x|] && y == z[..|y|];
    assert x[k..] == z[k..][..|x| - k];
    assert y[k..] == z[k..][..|y| - k];
  }

  /** An occurrence in a prefix is an occurrence in the whole string, ending within the prefix. */
  lemma PrefixOccurrences(s: string, sep: string, i: nat)
    requires i <= |s|
    ensures forall j :: OccursAt(s[..i], sep, j) ==> OccursAt(s, sep, j) && j + |sep| <= i
  {
    forall j | OccursAt(s[..i], sep, j) ensures OccursAt(s, sep, j) && j + |sep| <= i {
      assert s[j..j + |sep|] == s[..i][j..j + |sep|];
    }
  }

  /** The first piece of a split is the prefix before the first separator: it is the
      whole string when there is no separator, and otherwise ends where `find` does. */
  lemma SplitHead(s: string, sep: string)
    requires sep != []
    ensures var head := Split(s, sep)[0];
      head <= s && !Contains(head, sep) && (head == s || sep <= s[|head|..]) &&
      (head != s ==> Find(s, sep) == Some(|head|)) && (head == s ==> Find(s, sep) == None)
  {
    SplitPieces(s, sep);
    match Find(s, sep)
    case None =>
    case Some(i) =>
      assert s[i..i + |sep|] == sep;
  }

  /** For a one-character separator that no part contains, splitting a join gives
      back the parts (a non-empty list: `"".split(sep)` is `[""]`, not `[]`). */
  lemma {:induction false} JoinSplit(parts: seq<string>, c: char)
    requires parts != []
    requires forall k :: 0 <= k < |parts| ==> c !in parts[k]
    ensures Split(Join([c], parts), [c]) == parts
    decreases |parts|
  {
    var p := parts[0];
    forall j | 0 <= j < |p| ensures !OccursAt(p, [c], j) {
      assert p[j..j + 1] == [p[j]];
    }
    if |parts| == 1 {
      ContainsIff(p, [c]);
    } else {
      var s := Join([c], parts);
      var rest := parts[1..];
      assert s == p + [c] + Join([c], rest);
      assert s[|p|..|p| + 1] == [c];
      forall j | 0 <= j < |p| ensures !OccursAt(s, [c], j) {
        assert s[j] == p[j];
        assert s[j..j + 1] == [s[j]];
      }
      FindIsFirst(s, [c], |p|);
      assert s[..|p|] == p;
      assert s[|p| + 1..] == Join([c], rest);
      JoinSplit(rest, c);
    }
  }

  /** Python's `str.isspace` for a single character: the ASCII whitespace and
      separators plus the Unicode space characters. */
  predicate IsSpace(c: char) {
    var n := c as int;
    9 <= n <= 13 || 28 <= n <= 32 || n == 0x85 || n == 0xA0 || n == 0x1680 ||
    0x2000 <= n <= 0x200A || n == 0x2028 || n == 0x2029 || n == 0x202F ||
    n == 0x205F || n == 0x3000
  }

  /** `s.lstrip()`: drops the leading whitespace. */
  function LStrip(s: string): (r: string)
    ensures |r| <= |s| && r == s[|s| - |r|..]
    ensures forall k :: 0 <= k < |s| - |r| ==> IsSpace(s[k])
    ensures r == [] || !IsSpace(r[0])
  {
    if s != [] && IsSpace(s[0]) then LStrip(s[1..]) else s
  }

  /** `s.rstrip()`: drops the trailing whitespace. */
  function RStrip(s: string): (r: string)
    ensures |r| <= |s| && r == s[..|r|]
    ensures forall k :: |r| <= k < |s| ==> IsSpace(s[k])
    ensures r == [] || !IsSpace(r[|r| - 1])
  {
    if s != [] && IsSpace(s[|s| - 1]) then RStrip(s[..|s| - 1]) else s
  }

  /** `s.strip()`. */
  function Strip(s: string): string {
    RStrip(LStrip(s))
  }

  /** `s.strip()` is empty exactly when every character of `s` is whitespace. */
  lemma StripEmptyIffBlank(s: string)
    ensures Strip(s) == [] <==> forall k :: 0 <= k < |s| ==> IsSpace(s[k])
  {
    var l := LStrip(s);
    if Strip(s) == [] {
      // a non-empty `l` would start with a non-space that `rstrip` cannot remove
      assert l == [];
    }
  }

  /** ASCII letters and digits: the characters `str.isalnum` accepts, restricted to ASCII. */
  predicate IsAlnumChar(c: char) {
    'a' <= c <= 'z' || 'A' <= c <= 'Z' || '0' <= c <= '9'
  }

  /** `s.isalnum()`: non-empty and made only of letters and digits. */
  predicate IsAlnum(s: string) {
    |s| > 0 && forall k :: 0 <= k < |s| ==> IsAlnumChar(s[k])
  }

  /** `c.lower()` for ASCII upper-case letters; every other character is unchanged. */
  function LowerChar(c: char): char {
    if 'A' <= c <= 'Z' then (c as int + 32) as char else c
  }

  /** `s.lower()`, character by character. */
  function Lower(s: string): (r: string)
    ensures |r| == |s|
    ensures forall k :: 0 <= k < |r| ==> !('A' <= r[k] <= 'Z')
    ensures forall k :: 0 <= k < |r| && !('A' <= s[k] <= 'Z') ==> r[k] == s[k]
    ensures forall k :: 0 <= k < |r| && 'A' <= s[k] <= 'Z' ==>
      'a' <= r[k] <= 'z' && r[k] as int - 'a' as int == s[k] as int - 'A' as int
  {
    seq(|s|, k requires 0 <= k < |s| => LowerChar(s[k]))
  }
}
