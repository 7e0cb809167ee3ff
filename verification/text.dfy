/** String helpers with the behaviour of Python's `str.strip()` and
    `str.split(sep)` for a single-character separator, and their inverse
    `Join`. */
module Text {

  /** The characters `str.strip()` removes: those `str.isspace()` holds
      for, namely tab to carriage return, the four information separators
      U+001C to U+001F, space, NEL, no-break space, and the Unicode space
      and line/paragraph separators. */
  predicate IsSpace(c: char) {
    || '\t' <= c <= '\r'
    || '\U{1C}' <= c <= ' '
    || c == '\U{85}' || c == '\U{A0}' || c == '\U{1680}'
    || '\U{2000}' <= c <= '\U{200A}'
    || c == '\U{2028}' || c == '\U{2029}' || c == '\U{202F}' || c == '\U{205F}' || c == '\U{3000}'
  }

  /** A string with no surrounding white space: what `Trim` returns. */
  predicate IsTrimmed(s: string) {
    |s| == 0 || (!IsSpace(s[0]) && !IsSpace(s[|s| - 1]))
  }

  /** How many white space characters `s` starts with. */
  function LeadingSpace(s: string): (n: nat)
    ensures n <= |s| && forall k :: 0 <= k < n ==> IsSpace(s[k])
    ensures n == |s| || !IsSpace(s[n])
    decreases |s|
  {
    if |s| > 0 && IsSpace(s[0]) then 1 + LeadingSpace(s[1..]) else 0
  }

  /** Where the white space that `s` ends with begins. */
  function TrailingSpace(s: string): (n: nat)
    ensures n <= |s| && forall k :: n <= k < |s| ==> IsSpace(s[k])
    ensures n == 0 || !IsSpace(s[n - 1])
    decreases |s|
  {
    if |s| > 0 && IsSpace(s[|s| - 1]) then TrailingSpace(s[..|s| - 1]) else |s|
  }

  /** Drops leading white space. */
  function TrimLeft(s: string): string {
    s[LeadingSpace(s)..]
  }

  /** Drops trailing white space. */
  function TrimRight(s: string): string {
    s[..TrailingSpace(s)]
  }

  /** `s.strip()`: `s` without its leading and trailing white space. */
  function Trim(s: string): (r: string)
    ensures IsTrimmed(r) && |r| <= |s|
  {
    TrimRight(TrimLeft(s))
  }

  /** A string that trims to nothing is all white space. */
  lemma BlankIsSpace(s: string)
    requires Trim(s) == ""
    ensures forall k :: 0 <= k < |s| ==> IsSpace(s[k])
  {
    assert |TrimLeft(s)| == 0;
  }

  lemma InSlice(s: string, i: nat, j: nat, c: char)
    requires i <= j <= |s| && c in s[i..j]
    ensures c in s
  {
    var k :| i <= k < j && s[k] == c;
  }

  /** A character that survives trimming was in the string. */
  lemma TrimKeepsChars(s: string, c: char)
    requires c in Trim(s)
    ensures c in s
  {
    var l := TrimLeft(s);
    var t := TrimRight(l);
    InSlice(l, 0, |t|, c);
    InSlice(s, |s| - |l|, |s|, c);
  }

  /** Trimming leaves an already trimmed string alone, so `Trim` is
      idempotent. */
  lemma TrimOfTrimmed(s: string)
    requires IsTrimmed(s)
    ensures Trim(s) == s
  {
  }

  /** Leading white space in front of a trimmed string is dropped. */
  lemma TrimDropsLeadingSpace(pad: string, s: string)
    requires forall k :: 0 <= k < |pad| ==> IsSpace(pad[k])
    requires IsTrimmed(s)
    ensures Trim(pad + s) == s
  {
    var t := pad + s;
    assert forall k :: 0 <= k < |pad| ==> t[k] == pad[k];
    assert |s| > 0 ==> t[|pad|] == s[0];
    assert LeadingSpace(t) == |pad|;
    assert TrimLeft(t) == s;
  }

  /** `sep.join(parts)`. */
  function Join(parts: seq<string>, sep: string): string
  {
    if |parts| == 0 then ""
    else if |parts| == 1 then parts[0]
    else parts[0] + sep + Join(parts[1..], sep)
  }

  /** `s.split(sep)`: the pieces between separators, in order, empty pieces
      kept, so a string with n separators gives n + 1 pieces. Splitting and
      joining back with the same separator restores the string. */
  function Split(s: string, sep: char): (r: seq<string>)
    ensures |r| >= 1
    ensures forall i :: 0 <= i < |r| ==> sep !in r[i]
    ensures Join(r, [sep]) == s
    decreases |s|
  {
    if |s| == 0 then [""]
    else
      var rest := Split(s[1..], sep);
      if s[0] == sep then
        [""] + rest
      else
        var r := [[s[0]] + rest[0]] + rest[1..];
        JoinExtendsFirst(rest, [sep], s[0]);
        r
  }

  lemma {:induction false} JoinExtendsFirst(parts: seq<string>, sep: string, c: char)
    requires |parts| >= 1
    ensures Join([[c] + parts[0]] + parts[1..], sep) == [c] + Join(parts, sep)
  {
    var ext := [[c] + parts[0]] + parts[1..];
    assert ext[1..] == parts[1..];
  }

  /** The pieces of a string are the only separator-free list that joins
      back to it: splitting a join restores the list. */
  lemma {:induction false} SplitJoin(parts: seq<string>, sep: char)
    requires |parts| >= 1
    requires forall i :: 0 <= i < |parts| ==> sep !in parts[i]
    ensures Split(Join(parts, [sep]), sep) == parts
    decreases |parts|, |parts[0]|
  {
    var s := Join(parts, [sep]);
    if |parts[0]| == 0 {
      if |parts| == 1 {
        assert s == "";
      } else {
        assert s == [sep] + Join(parts[1..], [sep]);
        assert s[1..] == Join(parts[1..], [sep]);
        SplitJoin(parts[1..], sep);
        assert parts == [""] + parts[1..];
      }
    } else {
      var c := parts[0][0];
      var tail := [parts[0][1..]] + parts[1..];
      assert tail[1..] == parts[1..];
      assert parts[0] == [c] + parts[0][1..];
      JoinExtendsFirst(tail, [sep], c);
      assert [[c] + tail[0]] + tail[1..] == parts;
      assert s == [c] + Join(tail, [sep]);
      assert s[1..] == Join(tail, [sep]);
      assert forall i :: 0 <= i < |tail| ==> sep !in tail[i] by {
        forall i | 0 <= i < |tail| ensures sep !in tail[i] {
          if i == 0 {
            assert forall k :: 0 <= k < |tail[0]| ==> tail[0][k] == parts[0][k + 1];
          } else {
            assert tail[i] == parts[i];
          }
        }
      }
      SplitJoin(tail, sep);
    }
  }
}
