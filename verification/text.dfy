/** The Python string operations the reconciliation code relies on:
    `sub in s`, `s.split(sep)` with an explicit separator, `sep.join(items)`,
    `s.lower()` and slicing with possibly negative bounds. */
module Text {
  import opened Outcomes

  /** `sub` occurs in `s` starting at index `i`. */
  predicate OccursAt(s: string, sub: string, i: nat) {
    i + |sub| <= |s| && s[i..i + |sub|] == sub
  }

  /** The leftmost occurrence of `sub` in `s` at or after `from`. */
  function FindFrom(s: string, sub: string, from: nat): (r: Option<nat>)
    requires from <= |s|
    ensures r.Some? ==> from <= r.value && OccursAt(s, sub, r.value)
    ensures forall k: nat :: from <= k && (r.None? || k < r.value) ==> !OccursAt(s, sub, k)
    decreases |s| - from
  {
    if OccursAt(s, sub, from) then Some(from)
    else if from == |s| then None
    else FindFrom(s, sub, from + 1)
  }

  /** The leftmost occurrence of `sub` in `s` (Python's `s.find(sub)`). */
  function Find(s: string, sub: string): Option<nat> {
    FindFrom(s, sub, 0)
  }

  /** Python's `sub in s`. */
  predicate Contains(s: string, sub: string) {
    Find(s, sub).Some?
  }

  /** The occurrence at `i` is the leftmost when none starts before it. */
  lemma FindFirst(s: string, sub: string, i: nat)
    requires OccursAt(s, sub, i)
    requires forall k: nat :: k < i ==> !OccursAt(s, sub, k)
    ensures Find(s, sub) == Some(i)
  {
  }

  /** `sub in s` holds exactly when `sub` occurs somewhere in `s`. */
  lemma ContainsIff(s: string, sub: string)
    ensures Contains(s, sub) <==> exists i: nat :: OccursAt(s, sub, i)
  {
  }

  /** For a one-character needle, `in` is plain membership. */
  lemma ContainsChar(s: string, c: char)
    ensures Contains(s, [c]) <==> c in s
  {
    if c in s {
      var i :| 0 <= i < |s| && s[i] == c;
      assert OccursAt(s, [c], i);
    }
    if Contains(s, [c]) {
      var i := Find(s, [c]).value;
      assert s[i..i + 1] == [c];
      assert s[i] == c;
    }
  }

  /** A needle with a character the text lacks does not occur in it. */
  lemma MissingCharAbsent(s: string, sub: string, k: nat)
    requires k < |sub| && sub[k] !in s
    ensures !Contains(s, sub)
  {
  }

  /** A needle whose first character is missing from every position it
      could start at does not occur. */
  lemma LeadAbsent(s: string, sub: string)
    requires |sub| > 0
    requires |s| < |sub| || sub[0] !in s[..|s| - |sub| + 1]
    ensures !Contains(s, sub)
  {
  }

  /** Python's `s.split(sep)` for a non-empty separator: the pieces between
      successive leftmost non-overlapping occurrences of `sep`. */
  function Split(s: string, sep: string): (parts: seq<string>)
    requires |sep| > 0
    ensures |parts| >= 1
    decreases |s|
  {
    match Find(s, sep)
    case None => [s]
    case Some(i) => [s[..i]] + Split(s[i + |sep|..], sep)
  }

  /** Python's `sep.join(parts)` over strings. */
  function Join(sep: string, parts: seq<string>): string {
    if |parts| == 0 then ""
    else if |parts| == 1 then parts[0]
    else parts[0] + sep + Join(sep, parts[1..])
  }

  /** A Python value that can reach `str.join`. */
  datatype PyValue = PyInt(i: int) | PyStr(s: string)

  /** Python's `sep.join(items)`: a TypeError when some item is not a string. */
  function PyJoin(sep: string, items: seq<PyValue>): (r: Result<string>)
    ensures r.Err? <==> exists k :: 0 <= k < |items| && items[k].PyInt?
    ensures r.Err? ==> r.error == TypeError
    ensures r.Ok? ==> r.value == Join(sep, seq(|items|, k requires 0 <= k < |items| => items[k].s))
  {
    if |items| == 0 then Ok("")
    else match items[0]
      case PyInt(_) => Err(TypeError)
      case PyStr(first) =>
        if |items| == 1 then Ok(first)
        else match PyJoin(sep, items[1..])
          case Err(e) => Err(e)
          case Ok(rest) =>
            assert items[1..][0] == items[1];
            ghost var tail := seq(|items| - 1, k requires 0 <= k < |items| - 1 => items[1..][k].s);
            ghost var whole := seq(|items|, k requires 0 <= k < |items| => items[k].s);
            assert whole[1..] == tail;
            Ok(first + sep + rest)
  }

  /** Splitting and re-joining with the same separator gives the text back. */
  lemma {:induction false} SplitJoin(s: string, sep: string)
    requires |sep| > 0
    ensures Join(sep, Split(s, sep)) == s
    decreases |s|
  {
    match Find(s, sep)
    case None =>
    case Some(i) =>
      var rest := s[i + |sep|..];
      var tail := Split(rest, sep);
      SplitJoin(rest, sep);
      assert Split(s, sep) == [s[..i]] + tail;
      JoinCons(sep, s[..i], tail);
      assert s[i..i + |sep|] == sep;
      assert s == s[..i] + s[i..i + |sep|] + rest;
  }

  /** Joining a non-empty tail after a first piece. */
  lemma JoinCons(sep: string, first: string, tail: seq<string>)
    requires |tail| >= 1
    ensures Join(sep, [first] + tail) == first + sep + Join(sep, tail)
  {
    assert ([first] + tail)[1..] == tail;
  }

  /** No piece that `split` returns contains the separator. */
  lemma {:induction false} SplitPiecesAvoidSep(s: string, sep: string)
    requires |sep| > 0
    ensures forall j :: 0 <= j < |Split(s, sep)| ==> !Contains(Split(s, sep)[j], sep)
    decreases |s|
  {
    match Find(s, sep)
    case None =>
    case Some(i) =>
      var rest := s[i + |sep|..];
      SplitPiecesAvoidSep(rest, sep);
      HeadAvoidsSep(s, sep, i);
      assert Split(s, sep) == [s[..i]] + Split(rest, sep);
  }

  /** The text before the leftmost occurrence does not contain the needle. */
  lemma HeadAvoidsSep(s: string, sep: string, i: nat)
    requires |sep| > 0 && Find(s, sep) == Some(i)
    ensures !Contains(s[..i], sep)
  {
    var head := s[..i];
    if Contains(head, sep) {
      var k := Find(head, sep).value;
      assert head[k..k + |sep|] == s[k..k + |sep|];
      assert OccursAt(s, sep, k);
    }
  }

  /** Python's `s.split(sep, 1)`: at most one cut, at the leftmost
      occurrence of `sep`. */
  function SplitOnce(s: string, sep: string): (parts: seq<string>)
    requires |sep| > 0
    ensures 1 <= |parts| <= 2
    ensures |parts| == 2 <==> Contains(s, sep)
    ensures Join(sep, parts) == s
    ensures !Contains(parts[0], sep)
  {
    match Find(s, sep)
    case None => [s]
    case Some(i) =>
      HeadAvoidsSep(s, sep, i);
      assert s[..i] + sep + s[i + |sep|..] == s by {
        assert s[i..i + |sep|] == sep;
        assert s == s[..i] + s[i..i + |sep|] + s[i + |sep|..];
      }
      [s[..i], s[i + |sep|..]]
  }

  /** The one-cut split keeps the first piece of the full split and joins
      all the other pieces back into its second. */
  lemma SplitOnceSplit(s: string, sep: string)
    requires |sep| > 0
    ensures SplitOnce(s, sep)[0] == Split(s, sep)[0]
    ensures |SplitOnce(s, sep)| == |Split(s, sep)| || |SplitOnce(s, sep)| == 2
    ensures |SplitOnce(s, sep)| == 2 ==> SplitOnce(s, sep)[1] == Join(sep, Split(s, sep)[1..])
  {
    match Find(s, sep)
    case None =>
    case Some(i) =>
      var rest := s[i + |sep|..];
      assert Split(s, sep) == [s[..i]] + Split(rest, sep);
      assert Split(s, sep)[1..] == Split(rest, sep);
      SplitJoin(rest, sep);
  }

  /** A text without the separator splits into itself alone; with it, into
      at least two pieces. */
  lemma SplitSingleIff(s: string, sep: string)
    requires |sep| > 0
    ensures |Split(s, sep)| == 1 <==> !Contains(s, sep)
    ensures !Contains(s, sep) ==> Split(s, sep) == [s]
  {
  }

  /** When the first occurrence of `sep` in `p + sep + r` is the one after
      `p`, the split yields `p` and then the pieces of `r`. */
  lemma SplitAtFirst(p: string, sep: string, r: string)
    requires |sep| > 0
    requires !Contains(p + sep[..|sep| - 1], sep)
    ensures Split(p + sep + r, sep) == [p] + Split(r, sep)
  {
    var s := p + sep + r;
    assert OccursAt(s, sep, |p|) by {
      assert s[|p|..|p| + |sep|] == sep;
    }
    var f := Find(s, sep);
    assert f.Some?;
    var i := f.value;
    if i < |p| {
      var q := p + sep[..|sep| - 1];
      assert q == s[..|p| + |sep| - 1];
      assert q[i..i + |sep|] == s[i..i + |sep|];
      assert OccursAt(q, sep, i);
      assert false;
    }
    assert i == |p|;
    assert s[..i] == p;
    assert s[i + |sep|..] == r;
  }

  /** Python's `s.replace(c, "")` for one character `c`. */
  function Delete(s: string, c: char): string {
    if |s| == 0 then ""
    else (if s[0] == c then "" else [s[0]]) + Delete(s[1..], c)
  }

  lemma {:induction false} DeleteAppend(a: string, b: string, c: char)
    ensures Delete(a + b, c) == Delete(a, c) + Delete(b, c)
    decreases |a|
  {
    if |a| > 0 {
      DeleteAppend(a[1..], b, c);
      assert (a + b)[1..] == a[1..] + b;
    } else {
      assert a + b == b;
    }
  }

  lemma DeleteLeading(c: char, tail: string)
    ensures Delete([c] + tail, c) == Delete(tail, c)
  {
    DeleteAppend([c], tail, c);
    assert Delete([c], c) == "";
  }

  lemma {:induction false} DeleteAbsent(s: string, c: char)
    requires c !in s
    ensures Delete(s, c) == s
    decreases |s|
  {
    if |s| > 0 {
      DeleteAbsent(s[1..], c);
    }
  }

  /** Python's `s.lower()` on ASCII letters. */
  function LowerChar(c: char): char {
    if 'A' <= c <= 'Z' then (c as int + 32) as char else c
  }

  function Lower(s: string): (r: string)
    ensures |r| == |s|
  {
    seq(|s|, i requires 0 <= i < |s| => LowerChar(s[i]))
  }

  /** Lower-casing works letter by letter: a stretch of `t` that lowers to
      `m` makes `m` a substring of `t.lower()`, whatever the case of `t`. */
  lemma LowerFindsAnyCase(t: string, i: nat, j: nat, m: string)
    requires i <= j <= |t|
    requires Lower(t[i..j]) == m
    ensures Contains(Lower(t), m)
  {
    assert Lower(t)[i..j] == Lower(t[i..j]);
    assert OccursAt(Lower(t), m, i);
  }

  /** Python's `s[:stop]`, where a negative bound counts from the end and
      bounds beyond either end are clamped. */
  function SliceTo(s: string, stop: int): string {
    s[..Clamp(stop, |s|)]
  }

  /** Python's `s[start:]`. */
  function SliceFrom(s: string, start: int): string {
    s[Clamp(start, |s|)..]
  }

  /** How Python normalises a slice bound against a length. */
  function Clamp(bound: int, len: nat): (k: nat)
    ensures k <= len
    ensures 0 <= bound <= len ==> k == bound
    ensures -(len as int) <= bound < 0 ==> k == bound + len
    ensures bound < -(len as int) ==> k == 0
    ensures len < bound ==> k == len
  {
    var b := if bound < 0 then bound + len else bound;
    if b < 0 then 0 else if b > len then len else b
  }
}
