/** The `java.lang.String` operations the command router relies on:
    `startsWith`, `equalsIgnoreCase` (ASCII case folding), `trim` and
    `split(" ")`. */
module JavaText {

  /** `s.startsWith(prefix)`. */
  predicate StartsWith(s: string, prefix: string) {
    |prefix| <= |s| && s[..|prefix|] == prefix
  }

  /** ASCII lower-casing; every other character is left alone. */
  function AsciiLower(c: char): char {
    if 'A' <= c <= 'Z' then (c as int + 32) as char else c
  }

  /** Folding is idempotent, lands in 'a'..'z' exactly for ASCII letters,
      and folds two characters together exactly when they are equal or
      the upper- and lower-case forms of one letter. */
  lemma AsciiLowerFolds(c: char, d: char)
    ensures AsciiLower(AsciiLower(c)) == AsciiLower(c)
    ensures 'a' <= AsciiLower(c) <= 'z' <==> 'A' <= c <= 'Z' || 'a' <= c <= 'z'
    ensures AsciiLower(c) == AsciiLower(d) <==>
      || c == d
      || ('A' <= c <= 'Z' && d as int == c as int + 32)
      || ('A' <= d <= 'Z' && c as int == d as int + 32)
  {
  }

  /** `a.equalsIgnoreCase(b)`, with ASCII case folding. */
  predicate EqualsIgnoreCase(a: string, b: string) {
    |a| == |b| && forall i :: 0 <= i < |a| ==> AsciiLower(a[i]) == AsciiLower(b[i])
  }

  /** Ignoring case is an equivalence: reflexive, symmetric and transitive. */
  lemma EqualsIgnoreCaseEquivalence(a: string, b: string, c: string)
    ensures EqualsIgnoreCase(a, a)
    ensures EqualsIgnoreCase(a, b) ==> EqualsIgnoreCase(b, a)
    ensures EqualsIgnoreCase(a, b) && EqualsIgnoreCase(b, c) ==> EqualsIgnoreCase(a, c)
  {
  }

  /** Two strings that are equal ignoring case agree in every position
      that holds no ASCII letter. */
  lemma EqualsIgnoreCaseAgreesOffLetters(a: string, b: string, i: nat)
    requires EqualsIgnoreCase(a, b) && i < |a|
    requires !('A' <= a[i] <= 'Z') && !('a' <= a[i] <= 'z')
    ensures b[i] == a[i]
  {
    assert AsciiLower(a[i]) == AsciiLower(b[i]);
  }

  /** What `trim` removes: every character up to and including U+0020. */
  predicate IsTrimmable(c: char) {
    c <= ' '
  }

  /** The first index at or after `st` that holds a character `trim` keeps,
      or |s|: the first loop of `String.trim`. */
  function TrimStartIndex(s: string, st: nat): (k: nat)
    requires st <= |s|
    ensures st <= k <= |s|
    ensures forall i :: st <= i < k ==> IsTrimmable(s[i])
    ensures k == |s| || !IsTrimmable(s[k])
    decreases |s| - st
  {
    if st < |s| && IsTrimmable(s[st]) then TrimStartIndex(s, st + 1) else st
  }

  /** The end, no lower than `st`, once trailing trimmable characters before
      `len` are dropped: the second loop of `String.trim`. */
  function TrimEndIndex(s: string, st: nat, len: nat): (e: nat)
    requires st <= len <= |s|
    ensures st <= e <= len
    ensures forall i :: e <= i < len ==> IsTrimmable(s[i])
    ensures e == st || !IsTrimmable(s[e - 1])
    decreases len
  {
    if st < len && IsTrimmable(s[len - 1]) then TrimEndIndex(s, st, len - 1) else len
  }

  /** `s.trim()`. */
  function Trim(s: string): string {
    var st := TrimStartIndex(s, 0);
    s[st..TrimEndIndex(s, st, |s|)]
  }

  /** `trim` yields a contiguous slice of its input that neither starts nor
      ends with a trimmable character, and removes only trimmable ones. */
  lemma TrimSlice(s: string)
    ensures var st := TrimStartIndex(s, 0);
      var len := TrimEndIndex(s, st, |s|);
      && Trim(s) == s[st..len]
      && (forall i :: 0 <= i < st ==> IsTrimmable(s[i]))
      && (forall i :: len <= i < |s| ==> IsTrimmable(s[i]))
    ensures Trim(s) == [] || (!IsTrimmable(Trim(s)[0]) && !IsTrimmable(Trim(s)[|Trim(s)| - 1]))
  {
    var st := TrimStartIndex(s, 0);
    var len := TrimEndIndex(s, st, |s|);
    if st < len {
      assert Trim(s)[0] == s[st];
      assert Trim(s)[|Trim(s)| - 1] == s[len - 1];
    }
  }

  /** Text that neither starts nor ends with a trimmable character is its
      own trim. */
  lemma TrimUntrimmed(s: string)
    requires s != [] && !IsTrimmable(s[0]) && !IsTrimmable(s[|s| - 1])
    ensures Trim(s) == s
  {
    assert TrimStartIndex(s, 0) == 0;
    assert TrimEndIndex(s, 0, |s|) == |s|;
    assert s[0..|s|] == s;
  }

  /** Trimming twice is trimming once. */
  lemma TrimIdempotent(s: string)
    ensures Trim(Trim(s)) == Trim(s)
  {
    TrimSlice(s);
    var t := Trim(s);
    if t != [] {
      TrimUntrimmed(t);
    } else {
      assert TrimStartIndex(t, 0) == 0;
    }
  }

  /** `s.split(" ")` before Java drops trailing empty strings: every space
      is a separator, so k spaces give k + 1 pieces. */
  function Pieces(s: string): (r: seq<string>)
    ensures |r| >= 1
    decreases |s|
  {
    if s == [] then [[]]
    else
      var rest := Pieces(s[1..]);
      if s[0] == ' ' then [[]] + rest else [[s[0]] + rest[0]] + rest[1..]
  }

  /** Pieces joined back with single spaces. */
  function JoinWithSpace(parts: seq<string>): string
    requires |parts| >= 1
    decreases |parts|
  {
    if |parts| == 1 then parts[0] else parts[0] + " " + JoinWithSpace(parts[1..])
  }

  /** No piece holds a space, and joining the pieces with spaces gives the
      text back: cutting at the spaces loses nothing. */
  lemma {:induction false} PiecesJoin(s: string)
    ensures forall i :: 0 <= i < |Pieces(s)| ==> ' ' !in Pieces(s)[i]
    ensures JoinWithSpace(Pieces(s)) == s
    decreases |s|
  {
    PiecesHaveNoSpace(s);
    if s != [] {
      PiecesJoin(s[1..]);
      var rest := Pieces(s[1..]);
      var p := Pieces(s);
      if s[0] == ' ' {
        assert p[1..] == rest;
        JoinAfterSpace(p, rest);
      } else {
        assert p[1..] == rest[1..];
        JoinAfterChar(s[0], p, rest);
      }
      assert s == [s[0]] + s[1..];
    }
  }

  /** Joining parts whose first is empty puts a space in front of the join
      of the others. */
  lemma JoinAfterSpace(p: seq<string>, rest: seq<string>)
    requires |rest| >= 1 && |p| == |rest| + 1 && p[0] == [] && p[1..] == rest
    ensures JoinWithSpace(p) == " " + JoinWithSpace(rest)
  {
    assert JoinWithSpace(p) == [] + " " + JoinWithSpace(rest);
  }

  /** Joining parts whose first is the first of `rest` with `c` in front
      puts `c` in front of the join of `rest`. */
  lemma JoinAfterChar(c: char, p: seq<string>, rest: seq<string>)
    requires |rest| >= 1 && |p| == |rest| && p[0] == [c] + rest[0] && p[1..] == rest[1..]
    ensures JoinWithSpace(p) == [c] + JoinWithSpace(rest)
  {
    if |rest| > 1 {
      var tail := JoinWithSpace(rest[1..]);
      assert JoinWithSpace(p) == ([c] + rest[0]) + " " + tail;
      assert ([c] + rest[0]) + " " + tail == [c] + (rest[0] + " " + tail);
    }
  }

  /** No piece between spaces holds a space. */
  lemma {:induction false} PiecesHaveNoSpace(s: string)
    ensures forall i :: 0 <= i < |Pieces(s)| ==> ' ' !in Pieces(s)[i]
    decreases |s|
  {
    if s != [] {
      PiecesHaveNoSpace(s[1..]);
      var rest := Pieces(s[1..]);
      var p := Pieces(s);
      forall i | 0 <= i < |p| ensures ' ' !in p[i] {
        if s[0] == ' ' {
          if i > 0 { assert p[i] == rest[i - 1]; }
        } else if i == 0 {
          assert p[0] == [s[0]] + rest[0];
        } else {
          assert p[i] == rest[i];
        }
      }
    }
  }

  /** Drops the empty strings at the end of a split result. */
  function DropTrailingEmpty(parts: seq<string>): (r: seq<string>)
    ensures |r| <= |parts| && r == parts[..|r|]
    ensures r == [] || r[|r| - 1] != []
    ensures forall i :: |r| <= i < |parts| ==> parts[i] == []
    decreases |parts|
  {
    if parts != [] && parts[|parts| - 1] == [] then DropTrailingEmpty(parts[..|parts| - 1]) else parts
  }

  /** `s.split(" ")`: with no space the result is the text itself; otherwise
      the pieces without the empty ones at the end. */
  function Split(s: string): seq<string> {
    if ' ' !in s then [s] else DropTrailingEmpty(Pieces(s))
  }

  /** Text without a space is a single piece. */
  lemma {:induction false} PiecesWithoutSpace(s: string)
    requires ' ' !in s
    ensures Pieces(s) == [s]
    decreases |s|
  {
    if s != [] {
      assert ' ' !in s[1..] by {
        forall i | 0 <= i < |s| - 1 ensures s[1..][i] != ' ' {
          assert s[1..][i] == s[i + 1];
        }
      }
      PiecesWithoutSpace(s[1..]);
      assert s == [s[0]] + s[1..];
    }
  }

  /** A leading word without spaces extends the first piece of the rest. */
  lemma {:induction false} PiecesOfWordPrefix(w: string, t: string)
    requires ' ' !in w
    ensures Pieces(w + t) == [w + Pieces(t)[0]] + Pieces(t)[1..]
    decreases |w|
  {
    if w == [] {
      assert w + t == t;
      assert [] + Pieces(t)[0] == Pieces(t)[0];
      assert Pieces(t) == [Pieces(t)[0]] + Pieces(t)[1..];
    } else {
      assert ' ' !in w[1..] by {
        forall i | 0 <= i < |w| - 1 ensures w[1..][i] != ' ' {
          assert w[1..][i] == w[i + 1];
        }
      }
      PiecesOfWordPrefix(w[1..], t);
      assert (w + t)[1..] == w[1..] + t;
      assert [w[0]] + (w[1..] + Pieces(t)[0]) == w + Pieces(t)[0];
    }
  }

  /** Joining space-free words with spaces and cutting again gives the words
      back: the inverse direction of `PiecesJoin`. */
  lemma {:induction false} PiecesOfJoin(parts: seq<string>)
    requires |parts| >= 1
    requires forall i :: 0 <= i < |parts| ==> ' ' !in parts[i]
    ensures Pieces(JoinWithSpace(parts)) == parts
    decreases |parts|
  {
    if |parts| == 1 {
      PiecesWithoutSpace(parts[0]);
    } else {
      var rest := JoinWithSpace(parts[1..]);
      PiecesOfJoin(parts[1..]);
      assert parts[0] + " " + rest == parts[0] + (" " + rest);
      PiecesOfWordPrefix(parts[0], " " + rest);
      assert (" " + rest)[1..] == rest;
      assert Pieces(" " + rest) == [[]] + parts[1..];
      assert parts[0] + [] == parts[0];
      assert parts == [parts[0]] + parts[1..];
    }
  }

  /** Text that does not end in a space has a non-empty last piece. */
  lemma {:induction false} LastPieceNonEmpty(s: string)
    requires s != [] && s[|s| - 1] != ' '
    ensures var p := Pieces(s); p[|p| - 1] != []
    decreases |s|
  {
    var p := Pieces(s);
    if |s| > 1 {
      assert s[1..][|s| - 2] == s[|s| - 1];
      LastPieceNonEmpty(s[1..]);
      var rest := Pieces(s[1..]);
      if s[0] == ' ' || |rest| > 1 {
        assert p[|p| - 1] == rest[|rest| - 1];
      } else {
        assert p == [[s[0]] + rest[0]];
      }
    } else {
      assert s[1..] == [];
    }
  }

  /** On text that does not end in a space (such as trimmed text), `split`
      drops nothing: it yields exactly the pieces between the spaces. */
  lemma SplitOfUntrailed(s: string)
    requires s != [] && s[|s| - 1] != ' '
    ensures Split(s) == Pieces(s)
  {
    if ' ' !in s {
      PiecesWithoutSpace(s);
    } else {
      LastPieceNonEmpty(s);
    }
  }
}
