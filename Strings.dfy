/**
 * The few System.String operations the signing code relies on, over
 * `string` = `seq<char>`: invariant lower-casing (ASCII letters),
 * IsNullOrWhiteSpace, ordinal Replace with the empty string, Split on
 * one character, and Join, its inverse.
 */
module Strings {

  /** Invariant lower-casing of one character; only A-Z are mapped. */
  function LowerChar(c: char): (l: char)
    ensures 'A' <= c <= 'Z' ==> l as int == c as int + 32
    ensures !('A' <= c <= 'Z') ==> l == c
  {
    if 'A' <= c <= 'Z' then (c as int + 32) as char else c
  }

  /** String.ToLowerInvariant (and ToLower, which agrees with it on ASCII). */
  function ToLowerInvariant(s: string): (r: string)
    ensures |r| == |s|
    ensures forall i :: 0 <= i < |s| ==> r[i] == LowerChar(s[i])
  {
    if s == [] then [] else [LowerChar(s[0])] + ToLowerInvariant(s[1..])
  }

  /** Lower-casing an already lower-cased string changes nothing. */
  lemma LowerIdempotent(s: string)
    ensures ToLowerInvariant(ToLowerInvariant(s)) == ToLowerInvariant(s)
  {
    var l := ToLowerInvariant(s);
    var ll := ToLowerInvariant(l);
    assert |ll| == |l|;
    forall i | 0 <= i < |l| ensures ll[i] == l[i] {
      assert l[i] == LowerChar(s[i]);
    }
  }

  /** Char.IsWhiteSpace: the Unicode space separators, line and paragraph
      separators, U+0009 to U+000D, U+0085 and U+00A0. */
  predicate IsWhiteSpace(c: char) {
    || c == ' '
    || '\t' <= c <= '\r'
    || c == '\U{0085}'
    || c == '\U{00A0}'
    || c == '\U{1680}'
    || '\U{2000}' <= c <= '\U{200A}'
    || c == '\U{2028}'
    || c == '\U{2029}'
    || c == '\U{202F}'
    || c == '\U{205F}'
    || c == '\U{3000}'
  }

  /** String.IsNullOrWhiteSpace for a non-null string. */
  predicate IsNullOrWhiteSpace(s: string) {
    forall i :: 0 <= i < |s| ==> IsWhiteSpace(s[i])
  }

  /** True when `pattern` occurs in `s` starting at index `i`. */
  predicate OccursAt(s: string, pattern: string, i: int) {
    0 <= i && i + |pattern| <= |s| && s[i..i + |pattern|] == pattern
  }

  /**
   * String.Replace(pattern, "") for a non-empty pattern: scanning from the
   * left, every non-overlapping occurrence of `pattern` is removed.
   */
  function RemoveAll(s: string, pattern: string): (r: string)
    requires |pattern| > 0
    ensures |r| <= |s|
    decreases |s|
  {
    if |s| < |pattern| then s
    else if s[..|pattern|] == pattern then RemoveAll(s[|pattern|..], pattern)
    else [s[0]] + RemoveAll(s[1..], pattern)
  }

  /** A string in which the pattern never occurs comes back unchanged. */
  lemma {:induction false} RemoveAllAbsent(s: string, pattern: string)
    requires |pattern| > 0
    requires forall i :: !OccursAt(s, pattern, i)
    ensures RemoveAll(s, pattern) == s
    decreases |s|
  {
    if |s| >= |pattern| {
      assert !OccursAt(s, pattern, 0);
      assert s[..|pattern|] != pattern;
      forall i ensures !OccursAt(s[1..], pattern, i) {
        if OccursAt(s[1..], pattern, i) {
          assert s[1..][i..i + |pattern|] == s[i + 1..i + 1 + |pattern|];
          assert OccursAt(s, pattern, i + 1);
        }
      }
      RemoveAllAbsent(s[1..], pattern);
    }
  }

  /** A leading occurrence is removed and the scan resumes right after it. */
  lemma RemoveAllLeading(pattern: string, rest: string)
    requires |pattern| > 0
    ensures RemoveAll(pattern + rest, pattern) == RemoveAll(rest, pattern)
  {
    assert (pattern + rest)[..|pattern|] == pattern;
    assert (pattern + rest)[|pattern|..] == rest;
  }

  /**
   * A prefix none of whose characters is the pattern's first character
   * cannot start an occurrence, so it is kept whole.
   */
  lemma {:induction false} RemoveAllKeepsPrefix(prefix: string, rest: string, pattern: string)
    requires |pattern| > 0
    requires forall i :: 0 <= i < |prefix| ==> prefix[i] != pattern[0]
    ensures RemoveAll(prefix + rest, pattern) == prefix + RemoveAll(rest, pattern)
    decreases |prefix|
  {
    if prefix != [] {
      var s := prefix + rest;
      var tail := prefix[1..] + rest;
      assert s == [prefix[0]] + tail;
      RemoveAllKeepsPrefix(prefix[1..], rest, pattern);
      if |s| < |pattern| {
        assert RemoveAll(rest, pattern) == rest;
      } else {
        assert s[..|pattern|][0] == prefix[0];
        assert s[1..] == tail;
        assert RemoveAll(s, pattern) == [prefix[0]] + RemoveAll(tail, pattern);
        assert prefix == [prefix[0]] + prefix[1..];
      }
    } else {
      assert prefix + rest == rest;
    }
  }

  /** The elements of `parts` joined with `sep` between them (String.Join). */
  function Join(parts: seq<string>, sep: char): (s: string)
    requires |parts| > 0
    decreases |parts|
  {
    if |parts| == 1 then parts[0] else parts[0] + [sep] + Join(parts[1..], sep)
  }

  /**
   * String.Split(sep) with default options: empty entries are kept and
   * nothing is trimmed. The result is never empty, no element contains the
   * separator, and joining it back gives the input.
   */
  function Split(s: string, sep: char): (parts: seq<string>)
    ensures |parts| > 0
    ensures forall i :: 0 <= i < |parts| ==> sep !in parts[i]
    ensures Join(parts, sep) == s
    decreases |s|
  {
    if s == [] then [""]
    else
      var rest := Split(s[1..], sep);
      if s[0] == sep then
        assert [""] + rest == [""] + rest;
        [""] + rest
      else
        var parts := [[s[0]] + rest[0]] + rest[1..];
        assert parts[1..] == rest[1..];
        assert Join(parts, sep) == [s[0]] + Join(rest, sep) by {
          if |rest| > 1 {
            assert rest == [rest[0]] + rest[1..];
          }
        }
        assert s == [s[0]] + s[1..];
        parts
  }

  /** Join followed by Split gives back parts that do not contain the separator. */
  lemma {:induction false} SplitJoin(parts: seq<string>, sep: char)
    requires |parts| > 0
    requires forall i :: 0 <= i < |parts| ==> sep !in parts[i]
    ensures Split(Join(parts, sep), sep) == parts
    decreases |parts|, |parts[0]|
  {
    if parts[0] == [] {
      if |parts| == 1 {
      } else {
        var tail := Join(parts[1..], sep);
        assert Join(parts, sep) == [sep] + tail;
        assert ([sep] + tail)[1..] == tail;
        SplitJoin(parts[1..], sep);
        assert parts == [""] + parts[1..];
      }
    } else {
      var c := parts[0][0];
      var shorter := [parts[0][1..]] + parts[1..];
      assert c != sep by { assert c == parts[0][0]; }
      forall i | 0 <= i < |shorter| ensures sep !in shorter[i] {
        if i == 0 {
          assert forall k :: 0 <= k < |parts[0][1..]| ==> parts[0][1..][k] == parts[0][k + 1];
        } else {
          assert shorter[i] == parts[i];
        }
      }
      var joined := Join(parts, sep);
      assert joined == [c] + Join(shorter, sep) by {
        assert parts[0] == [c] + parts[0][1..];
        if |parts| > 1 {
          assert shorter[1..] == parts[1..];
        }
      }
      assert joined[1..] == Join(shorter, sep);
      SplitJoin(shorter, sep);
      var rest := Split(joined[1..], sep);
      assert rest == shorter;
      assert Split(joined, sep) == [[c] + rest[0]] + rest[1..];
      assert [c] + parts[0][1..] == parts[0];
      assert parts == [parts[0]] + parts[1..];
    }
  }
}
