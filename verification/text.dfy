/** Cutting and joining text at a separator, and trimming space off its ends. */
module Text {

  /** The text before the first separator, and what follows it. */
  function Cut(s: string, sep: char): (r: (string, string)) {
    if s == "" then ("", "")
    else if s[0] == sep then ("", s[1..])
    else var (before, after) := Cut(s[1..], sep); ([s[0]] + before, after)
  }

  function Split(s: string, sep: char): (r: seq<string>)
    ensures |r| > 0
  {
    if s == "" then [""]
    else
      var rest := Split(s[1..], sep);
      if s[0] == sep then [""] + rest else [[s[0]] + rest[0]] + rest[1..]
  }

  function Joined(parts: seq<string>, sep: char): string
    requires parts != []
  {
    if |parts| == 1 then parts[0] else parts[0] + [sep] + Joined(parts[1..], sep)
  }

  lemma {:induction false} CutAtFirst(before: string, after: string, sep: char)
    requires sep !in before
    ensures Cut(before + [sep] + after, sep) == (before, after)
  {
    if before == "" {
      assert before + [sep] + after == [sep] + after;
    } else {
      assert (before + [sep] + after)[1..] == before[1..] + [sep] + after;
      CutAtFirst(before[1..], after, sep);
      assert [before[0]] + before[1..] == before;
    }
  }

  lemma {:induction false} CutWithoutSeparator(s: string, sep: char)
    requires sep !in s
    ensures Cut(s, sep) == (s, "")
  {
    if s != "" {
      CutWithoutSeparator(s[1..], sep);
      assert [s[0]] + s[1..] == s;
    }
  }

  lemma {:induction false} SplitWithoutSeparator(s: string, sep: char)
    requires sep !in s
    ensures Split(s, sep) == [s]
  {
    if s != "" {
      assert s[0] in s && forall c :: c in s[1..] ==> c in s;
      SplitWithoutSeparator(s[1..], sep);
      assert [s[0]] + s[1..] == s;
    }
  }

  lemma {:induction false} SplitPrepends(first: string, s: string, sep: char)
    requires sep !in first
    ensures Split(first + [sep] + s, sep) == [first] + Split(s, sep)
  {
    if first == "" {
      assert first + [sep] + s == [sep] + s;
    } else {
      assert (first + [sep] + s)[1..] == first[1..] + [sep] + s;
      SplitPrepends(first[1..], s, sep);
      assert [first[0]] + first[1..] == first;
    }
  }

  lemma {:induction false} SplitAppends(s: string, last: string, sep: char)
    requires sep !in last
    ensures Split(s + [sep] + last, sep) == Split(s, sep) + [last]
  {
    SplitWithoutSeparator(last, sep);
    if s == "" {
      assert s + [sep] + last == [sep] + last;
    } else {
      assert (s + [sep] + last)[1..] == s[1..] + [sep] + last;
      SplitAppends(s[1..], last, sep);
    }
  }

  lemma {:induction false} SplitJoins(s: string, sep: char)
    ensures Joined(Split(s, sep), sep) == s
  {
    if s != "" {
      SplitJoins(s[1..], sep);
      var rest := Split(s[1..], sep);
      if s[0] == sep {
        assert ([""] + rest)[1..] == rest;
        assert "" + [sep] + s[1..] == s;
      } else {
        var grown := [[s[0]] + rest[0]] + rest[1..];
        assert grown[1..] == rest[1..];
        assert Joined(grown, sep) == [s[0]] + Joined(rest, sep);
      }
    }
  }

  lemma {:induction false} JoinedSplits(parts: seq<string>, sep: char)
    requires parts != [] && forall p :: p in parts ==> sep !in p
    ensures Split(Joined(parts, sep), sep) == parts
    decreases |parts|
  {
    assert parts[0] in parts;
    if |parts| == 1 {
      SplitWithoutSeparator(parts[0], sep);
    } else {
      JoinedSplits(parts[1..], sep);
      SplitPrepends(parts[0], Joined(parts[1..], sep), sep);
    }
  }

  /******* Space *******/

  /** The white space of Unicode. */
  predicate IsSpace(c: char) {
    || c in {'\t', '\n', '\U{000B}', '\U{000C}', '\r', ' ', '\U{0085}', '\U{00A0}', '\U{1680}'}
    || '\U{2000}' <= c <= '\U{200A}'
    || c in {'\U{2028}', '\U{2029}', '\U{202F}', '\U{205F}', '\U{3000}'}
  }

  function TrimLeft(s: string): string {
    if s != "" && IsSpace(s[0]) then TrimLeft(s[1..]) else s
  }

  function TrimRight(s: string): string {
    if s != "" && IsSpace(s[|s| - 1]) then TrimRight(s[..|s| - 1]) else s
  }

  function Trim(s: string): string {
    TrimRight(TrimLeft(s))
  }

  /** No space at either end. */
  predicate Tight(s: string) {
    s != "" ==> !IsSpace(s[0]) && !IsSpace(s[|s| - 1])
  }

  lemma TightTrims(s: string)
    requires Tight(s)
    ensures Trim(s) == s && Trim(" " + s) == s && Trim(s + " ") == s
  {
    assert (" " + s)[1..] == s;
    assert TrimLeft(" " + s) == TrimLeft(s) == s;
    assert (s + " ")[..|s|] == s;
    if s == "" {
      assert TrimLeft(" ") == TrimLeft("");
    } else {
      assert TrimRight(s + " ") == TrimRight(s) == s;
    }
  }

  predicate Blank(s: string) {
    forall i :: 0 <= i < |s| ==> IsSpace(s[i])
  }

  /** Trimming takes off space at the ends, all of it, and nothing else. */
  lemma TrimIsExact(s: string) returns (left: string, right: string)
    ensures s == left + Trim(s) + right && Blank(left) && Blank(right) && Tight(Trim(s))
  {
    TrimIsTight(s);
    left := TrimmedLeft(s);
    right := TrimmedRight(TrimLeft(s));
  }

  lemma {:induction false} TrimmedLeft(s: string) returns (left: string)
    ensures s == left + TrimLeft(s) && Blank(left)
  {
    left := "";
    if s != "" && IsSpace(s[0]) {
      var rest := TrimmedLeft(s[1..]);
      left := [s[0]] + rest;
    }
  }

  lemma {:induction false} TrimmedRight(s: string) returns (right: string)
    ensures s == TrimRight(s) + right && Blank(right)
    decreases |s|
  {
    right := "";
    if s != "" && IsSpace(s[|s| - 1]) {
      var rest := TrimmedRight(s[..|s| - 1]);
      right := rest + [s[|s| - 1]];
    }
  }

  lemma {:induction false} TrimIsTight(s: string)
    ensures Tight(Trim(s))
  {
    TrimLeftStarts(s);
    TrimRightEnds(TrimLeft(s));
  }

  lemma {:induction false} TrimLeftStarts(s: string)
    ensures TrimLeft(s) != "" ==> !IsSpace(TrimLeft(s)[0])
  {
    if s != "" && IsSpace(s[0]) {
      TrimLeftStarts(s[1..]);
    }
  }

  lemma {:induction false} TrimRightEnds(s: string)
    ensures TrimRight(s) <= s && (TrimRight(s) != "" ==> !IsSpace(TrimRight(s)[|TrimRight(s)| - 1]))
    decreases |s|
  {
    if s != "" && IsSpace(s[|s| - 1]) {
      TrimRightEnds(s[..|s| - 1]);
    }
  }
}
