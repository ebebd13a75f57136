/** The JavaScript string operations the scripts and the query library use:
    `toLowerCase`/`toUpperCase` (on ASCII letters only), `includes`,
    `indexOf`, `startsWith`, `split` on one character, `split(/\s+/)`,
    `join` and `replace` of the first occurrence of a literal string. */
module Text {
  import opened Seqs

  /** JavaScript's `\s`: white space and line terminators. */
  predicate IsSpace(c: char) {
    c == ' ' || c == '\t' || c == '\n' || c == '\U{B}' || c == '\U{C}' || c == '\r'
    || c == '\U{A0}' || c == '\U{1680}' || ('\U{2000}' <= c <= '\U{200A}')
    || c == '\U{2028}' || c == '\U{2029}' || c == '\U{202F}' || c == '\U{205F}'
    || c == '\U{3000}' || c == '\U{FEFF}'
  }

  /** The characters that JavaScript's `.` (without the `s` flag) does not
      match, and at which `^` and `$` match under the `m` flag. */
  predicate IsLineTerminator(c: char) {
    c == '\n' || c == '\r' || c == '\U{2028}' || c == '\U{2029}'
  }

  predicate NoLineTerminator(s: string) {
    forall i :: 0 <= i < |s| ==> !IsLineTerminator(s[i])
  }

  predicate IsUpper(c: char) { 'A' <= c <= 'Z' }
  predicate IsLower(c: char) { 'a' <= c <= 'z' }
  predicate IsDigit(c: char) { '0' <= c <= '9' }
  predicate IsAlnum(c: char) { IsUpper(c) || IsLower(c) || IsDigit(c) }
  /** JavaScript's `\w`. */
  predicate IsWordChar(c: char) { IsAlnum(c) || c == '_' }

  function LowerChar(c: char): char {
    if IsUpper(c) then (c as int + 32) as char else c
  }

  function UpperChar(c: char): char {
    if IsLower(c) then (c as int - 32) as char else c
  }

  /** `s.toLowerCase()` on ASCII letters. */
  function Lower(s: string): (r: string)
    ensures |r| == |s|
    ensures forall i :: 0 <= i < |s| ==> r[i] == LowerChar(s[i])
  {
    seq(|s|, i requires 0 <= i < |s| => LowerChar(s[i]))
  }

  /** `s.toUpperCase()` on ASCII letters. */
  function Upper(s: string): (r: string)
    ensures |r| == |s|
    ensures forall i :: 0 <= i < |s| ==> r[i] == UpperChar(s[i])
  {
    seq(|s|, i requires 0 <= i < |s| => UpperChar(s[i]))
  }

  lemma LowerAppend(a: string, b: string)
    ensures Lower(a + b) == Lower(a) + Lower(b)
  {
    assert forall i :: 0 <= i < |a + b| ==> Lower(a + b)[i] == (Lower(a) + Lower(b))[i];
  }

  /** Lower-casing an upper-cased string gives the lower-cased original. */
  lemma LowerOfUpper(s: string)
    ensures Lower(Upper(s)) == Lower(s)
  {
    assert forall i :: 0 <= i < |s| ==> Lower(Upper(s))[i] == Lower(s)[i];
  }

  lemma LowerIdempotent(s: string)
    ensures Lower(Lower(s)) == Lower(s)
  {
    assert forall i :: 0 <= i < |s| ==> Lower(Lower(s))[i] == Lower(s)[i];
  }

  predicate StartsWith(s: string, prefix: string) {
    |prefix| <= |s| && s[..|prefix|] == prefix
  }

  predicate OccursAt(s: string, pat: string, i: int) {
    0 <= i && i + |pat| <= |s| && s[i..i + |pat|] == pat
  }

  /** `s.indexOf(pat, from)`: the first position at or after `from` where `pat` occurs. */
  function IndexOf(s: string, pat: string, from: nat): (r: Option<nat>)
    decreases |s| - from
    ensures r.Some? ==> from <= r.value && OccursAt(s, pat, r.value)
    ensures forall j :: from <= j && (r.None? || j < r.value) ==> !OccursAt(s, pat, j)
  {
    if from + |pat| > |s| then None
    else if s[from..from + |pat|] == pat then Some(from)
    else IndexOf(s, pat, from + 1)
  }

  /** `s.includes(q)`. */
  predicate Includes(s: string, q: string)
    ensures Includes(s, q) <==> exists i :: OccursAt(s, q, i)
  {
    IndexOf(s, q, 0).Some?
  }

  /** An occurrence inside an occurrence is an occurrence. */
  lemma IncludesTrans(a: string, b: string, c: string)
    requires Includes(a, b) && Includes(b, c)
    ensures Includes(a, c)
  {
    var i :| OccursAt(a, b, i);
    var j :| OccursAt(b, c, j);
    assert forall k :: 0 <= k < |b| ==> a[i + k] == b[k] by {
      assert a[i..i + |b|] == b;
    }
    assert a[i + j..i + j + |c|] == b[j..j + |c|];
    assert OccursAt(a, c, i + j);
  }

  /** Each part of a concatenation occurs in it. */
  lemma IncludesMiddle(x: string, y: string, z: string)
    ensures Includes(x + y + z, y)
  {
    assert (x + y + z)[|x|..|x| + |y|] == y;
    assert OccursAt(x + y + z, y, |x|);
  }

  /** The empty string occurs in every string, so `s.includes("")` holds. */
  lemma IncludesEmpty(s: string)
    ensures Includes(s, "")
  {
    assert OccursAt(s, "", 0);
  }

  /** The number of occurrences of `c` in `s`. */
  function Count(s: string, c: char): (n: nat)
    ensures n <= |s|
    ensures n == 0 <==> c !in s
  {
    if s == [] then 0 else (if s[0] == c then 1 else 0) + Count(s[1..], c)
  }

  lemma {:induction false} CountAppend(a: string, b: string, c: char)
    ensures Count(a + b, c) == Count(a, c) + Count(b, c)
  {
    if a != [] {
      CountAppend(a[1..], b, c);
      assert (a + b)[1..] == a[1..] + b;
    } else {
      assert a + b == b;
    }
  }

  /** `s.split(c)` for a one-character separator: the pieces between the
      occurrences of `c`, one more piece than there are separators. */
  function Split(s: string, c: char): (r: seq<string>)
    ensures |r| >= 1
    ensures forall i :: 0 <= i < |r| ==> c !in r[i]
  {
    if s == [] then [""]
    else
      var rest := Split(s[1..], c);
      if s[0] == c then [""] + rest else [[s[0]] + rest[0]] + rest[1..]
  }

  /** There is one more piece than there are separators. */
  lemma {:induction false} SplitLength(s: string, c: char)
    ensures |Split(s, c)| == Count(s, c) + 1
  {
    if s != [] {
      SplitLength(s[1..], c);
    }
  }

  /** `ws.join(sep)`. */
  function Join(ws: seq<string>, sep: string): string {
    if ws == [] then ""
    else if |ws| == 1 then ws[0]
    else ws[0] + sep + Join(ws[1..], sep)
  }

  lemma JoinCons(w: string, ws: seq<string>, sep: string)
    requires ws != []
    ensures Join([w] + ws, sep) == w + sep + Join(ws, sep)
  {
    assert ([w] + ws)[1..] == ws;
  }

  /** Every piece occurs in the joined text, and pieces that are not empty
      join to an empty text only when there are none. */
  lemma {:induction false} JoinHoldsEach(ws: seq<string>, sep: string)
    ensures forall i :: 0 <= i < |ws| ==> Includes(Join(ws, sep), ws[i])
    ensures (forall i :: 0 <= i < |ws| ==> ws[i] != []) ==> (Join(ws, sep) == [] <==> ws == [])
    decreases |ws|
  {
    if |ws| == 1 {
      assert "" + ws[0] + "" == ws[0];
      IncludesMiddle("", ws[0], "");
    } else if |ws| > 1 {
      var rest := Join(ws[1..], sep);
      JoinHoldsEach(ws[1..], sep);
      assert Join(ws, sep) == "" + ws[0] + (sep + rest);
      IncludesMiddle("", ws[0], sep + rest);
      assert Join(ws, sep) == ws[0] + sep + rest + "";
      IncludesMiddle(ws[0] + sep, rest, "");
      forall i | 1 <= i < |ws|
        ensures Includes(Join(ws, sep), ws[i])
      {
        assert ws[1..][i - 1] == ws[i];
        IncludesTrans(Join(ws, sep), rest, ws[i]);
      }
    }
  }

  lemma JoinConsEmptySep(w: string, ws: seq<string>)
    ensures Join([w] + ws, "") == w + Join(ws, "")
  {
    assert ([w] + ws)[1..] == ws;
    if ws == [] {
      assert w + Join(ws, "") == w;
    }
  }

  lemma {:induction false} SplitWithout(s: string, c: char)
    requires c !in s
    ensures Split(s, c) == [s]
  {
    if s != [] {
      SplitWithout(s[1..], c);
      assert s == [s[0]] + s[1..];
    }
  }

  lemma ExtendFirst(x: char, xs: seq<string>, ys: seq<string>)
    requires xs != []
    ensures [[x] + (xs + ys)[0]] + (xs + ys)[1..] == ([[x] + xs[0]] + xs[1..]) + ys
  {
    assert (xs + ys)[0] == xs[0] && (xs + ys)[1..] == xs[1..] + ys;
  }

  /** A separator splits the string into the pieces of the two sides. */
  lemma {:induction false} SplitAround(a: string, b: string, c: char)
    ensures Split(a + [c] + b, c) == Split(a, c) + Split(b, c)
  {
    var s := a + [c] + b;
    if a == [] {
      assert s[0] == c && s[1..] == b;
      assert Split(s, c) == [""] + Split(b, c);
    } else {
      assert s[0] == a[0] && s[1..] == a[1..] + [c] + b;
      SplitAround(a[1..], b, c);
      var ra, rb := Split(a[1..], c), Split(b, c);
      if a[0] == c {
        assert Split(s, c) == [""] + (ra + rb);
        assert Split(a, c) == [""] + ra;
        assert [""] + (ra + rb) == ([""] + ra) + rb;
      } else {
        assert Split(s, c) == [[a[0]] + (ra + rb)[0]] + (ra + rb)[1..];
        assert Split(a, c) == [[a[0]] + ra[0]] + ra[1..];
        ExtendFirst(a[0], ra, rb);
      }
    }
  }

  /** Splitting a join recovers the pieces when no piece holds the separator. */
  lemma {:induction false} SplitJoin(ws: seq<string>, c: char)
    requires ws != []
    requires forall i :: 0 <= i < |ws| ==> c !in ws[i]
    ensures Split(Join(ws, [c]), c) == ws
  {
    if |ws| == 1 {
      SplitWithout(ws[0], c);
    } else {
      SplitJoin(ws[1..], c);
      SplitWithout(ws[0], c);
      SplitAround(ws[0], Join(ws[1..], [c]), c);
      assert ws == [ws[0]] + ws[1..];
    }
  }

  // ---- whitespace runs: `split(/\s+/)` and `replace(/\s+/g, r)` ----

  /** The length of the longest prefix of `s` without white space. */
  function WordLength(s: string): (n: nat)
    ensures n <= |s|
    ensures forall i :: 0 <= i < n ==> !IsSpace(s[i])
    ensures n < |s| ==> IsSpace(s[n])
  {
    if s == [] || IsSpace(s[0]) then 0 else 1 + WordLength(s[1..])
  }

  /** The length of the longest prefix of `s` made of white space. */
  function SpaceLength(s: string): (n: nat)
    ensures n <= |s|
    ensures forall i :: 0 <= i < n ==> IsSpace(s[i])
    ensures n < |s| ==> !IsSpace(s[n])
  {
    if s == [] || !IsSpace(s[0]) then 0 else 1 + SpaceLength(s[1..])
  }

  /** A run of white space followed by text that does not start with white
      space: the run is the longest white-space prefix. */
  lemma {:induction false} SpaceLengthOfBlanks(b: string, t: string)
    requires forall i :: 0 <= i < |b| ==> IsSpace(b[i])
    requires t == [] || !IsSpace(t[0])
    ensures SpaceLength(b + t) == |b|
  {
    if b == [] {
      assert b + t == t;
    } else {
      SpaceLengthOfBlanks(b[1..], t);
      assert (b + t)[1..] == b[1..] + t;
    }
  }

  predicate NoSpace(s: string) {
    forall i :: 0 <= i < |s| ==> !IsSpace(s[i])
  }

  /** `s` with every white-space character deleted. */
  function RemoveSpaces(s: string): string {
    if s == [] then "" else (if IsSpace(s[0]) then "" else [s[0]]) + RemoveSpaces(s[1..])
  }

  lemma {:induction false} RemoveSpacesAppend(a: string, b: string)
    ensures RemoveSpaces(a + b) == RemoveSpaces(a) + RemoveSpaces(b)
  {
    if a == [] {
      assert a + b == b;
    } else {
      var s := a + b;
      assert s[0] == a[0] && s[1..] == a[1..] + b;
      var h := if IsSpace(a[0]) then "" else [a[0]];
      RemoveSpacesAppend(a[1..], b);
      var ra, rb := RemoveSpaces(a[1..]), RemoveSpaces(b);
      assert RemoveSpaces(s) == h + (ra + rb);
      assert RemoveSpaces(a) == h + ra;
      assert h + (ra + rb) == (h + ra) + rb;
    }
  }

  lemma {:induction false} RemoveSpacesOfWord(s: string)
    requires NoSpace(s)
    ensures RemoveSpaces(s) == s
  {
    if s != [] {
      RemoveSpacesOfWord(s[1..]);
      assert s == [s[0]] + s[1..];
    }
  }

  lemma {:induction false} RemoveSpacesOfBlank(s: string, n: nat)
    requires n <= |s| && forall i :: 0 <= i < n ==> IsSpace(s[i])
    ensures RemoveSpaces(s) == RemoveSpaces(s[n..])
  {
    if n > 0 {
      RemoveSpacesOfBlank(s[1..], n - 1);
      assert s[1..][n - 1..] == s[n..];
    }
  }

  /** `s.split(/\s+/)`: the words between runs of white space. A leading
      (trailing) run gives an empty first (last) word; the empty string
      gives one empty word. */
  function SplitOnSpaces(s: string): (ws: seq<string>)
    decreases |s|
    ensures |ws| >= 1
    ensures forall i :: 0 <= i < |ws| ==> NoSpace(ws[i])
    ensures forall i :: 0 < i < |ws| - 1 ==> ws[i] != ""
    ensures s != [] && !IsSpace(s[0]) ==> ws[0] != ""
    ensures Join(ws, "") == RemoveSpaces(s)
  {
    var n := WordLength(s);
    if n == |s| then
      RemoveSpacesOfWord(s);
      [s]
    else
      var rest := s[n..];
      var m := SpaceLength(rest);
      var tail := rest[m..];
      var ts := SplitOnSpaces(tail);
      var ws := [s[..n]] + ts;
      assert ws[0] == s[..n] && ws[1..] == ts;
      assert Join(ws, "") == RemoveSpaces(s) by {
        JoinConsEmptySep(s[..n], ts);
        assert s == s[..n] + rest;
        RemoveSpacesAppend(s[..n], rest);
        RemoveSpacesOfWord(s[..n]);
        RemoveSpacesOfBlank(rest, m);
      }
      ws
  }

  /** A word followed by white space: the word is the longest prefix
      without white space. */
  lemma {:induction false} WordLengthOfWord(x: string, t: string)
    requires NoSpace(x)
    requires t != [] && IsSpace(t[0])
    ensures WordLength(x + t) == |x|
  {
    if x == [] {
      assert x + t == t;
    } else {
      WordLengthOfWord(x[1..], t);
      assert (x + t)[1..] == x[1..] + t;
    }
  }

  /** A string with no white space is one word. */
  lemma SplitOnSpacesWord(x: string)
    requires NoSpace(x)
    ensures SplitOnSpaces(x) == [x]
  {
  }

  /** A word, a run of white space, and text that does not start with white
      space: the word is the first item and the split goes on after the run. */
  lemma SplitOnSpacesAt(x: string, b: string, y: string)
    requires NoSpace(x)
    requires b != [] && forall i :: 0 <= i < |b| ==> IsSpace(b[i])
    requires y == [] || !IsSpace(y[0])
    ensures SplitOnSpaces(x + b + y) == [x] + SplitOnSpaces(y)
  {
    var s, rest := x + b + y, b + y;
    WordLengthOfWord(x, rest);
    assert s == x + rest;
    assert s[..|x|] == x && s[|x|..] == rest;
    SpaceLengthOfBlanks(b, y);
    assert rest[|b|..] == y;
  }

  /** Words without white space, joined by single spaces, split back into
      those words. */
  lemma {:induction false} SplitJoinSpaces(ws: seq<string>)
    requires ws != []
    requires forall i :: 0 <= i < |ws| ==> NoSpace(ws[i])
    requires forall i :: 1 <= i < |ws| ==> ws[i] != []
    ensures SplitOnSpaces(Join(ws, " ")) == ws
    decreases |ws|
  {
    if |ws| == 1 {
      SplitOnSpacesWord(ws[0]);
    } else {
      var rest := Join(ws[1..], " ");
      SplitJoinSpaces(ws[1..]);
      JoinCons(ws[0], ws[1..], " ");
      assert ws == [ws[0]] + ws[1..];
      assert ws[1..][0] == ws[1] && ws[1] != [];
      assert rest == [] || rest[0] == ws[1][0] by {
        if |ws| == 2 {
        } else {
          JoinCons(ws[1], ws[2..], " ");
          assert ws[1..] == [ws[1]] + ws[2..];
        }
      }
      SplitOnSpacesAt(ws[0], " ", rest);
    }
  }

  /** `replace(/\s+/g, r)` on the rest of a string, where `inRun` says
      whether the character before it was white space: a run of white space
      gives one `r`, at its first character. */
  function RunsFrom(s: string, r: string, inRun: bool): string
    decreases |s|
  {
    if s == [] then ""
    else if IsSpace(s[0]) then (if inRun then "" else r) + RunsFrom(s[1..], r, true)
    else [s[0]] + RunsFrom(s[1..], r, false)
  }

  /** `s.replace(/\s+/g, r)`: every run of white space becomes one `r`. */
  function ReplaceSpaceRuns(s: string, r: string): string {
    RunsFrom(s, r, false)
  }

  /** Text without white space is left as it is. */
  lemma {:induction false} RunsFromOfWord(s: string, r: string, inRun: bool)
    requires NoSpace(s)
    ensures RunsFrom(s, r, inRun) == s
    decreases |s|
  {
    if s != [] {
      RunsFromOfWord(s[1..], r, false);
      assert s == [s[0]] + s[1..];
    }
  }

  lemma ReplaceSpaceRunsOfWord(s: string, r: string)
    requires NoSpace(s)
    ensures ReplaceSpaceRuns(s, r) == s
  {
    RunsFromOfWord(s, r, false);
  }

  /** A run of white space cannot reach into a part that starts with a
      non-space character. */
  lemma {:induction false} RunsFromAppend(x: string, y: string, r: string, inRun: bool)
    requires y != [] && !IsSpace(y[0])
    ensures RunsFrom(x + y, r, inRun) == RunsFrom(x, r, inRun) + RunsFrom(y, r, false)
    decreases |x|
  {
    if x == [] {
      assert x + y == y;
    } else {
      var s := x + y;
      assert s[0] == x[0] && s[1..] == x[1..] + y;
      var next := IsSpace(x[0]);
      var p := if next then (if inRun then "" else r) else [x[0]];
      RunsFromAppend(x[1..], y, r, next);
      var rest, ry := RunsFrom(x[1..], r, next), RunsFrom(y, r, false);
      assert RunsFrom(s, r, inRun) == p + (rest + ry);
      assert RunsFrom(x, r, inRun) == p + rest;
      assert p + (rest + ry) == (p + rest) + ry;
    }
  }

  /** Text ending in a character that is not white space leaves no run open. */
  lemma {:induction false} RunsFromAfterWord(x: string, z: string, r: string, inRun: bool)
    requires x != [] && !IsSpace(x[|x| - 1])
    ensures RunsFrom(x + z, r, inRun) == RunsFrom(x, r, inRun) + RunsFrom(z, r, false)
    decreases |x|
  {
    var s := x + z;
    assert s[0] == x[0] && s[1..] == x[1..] + z;
    if |x| == 1 {
      assert x[1..] + z == z && RunsFrom(x[1..], r, false) == "";
    } else {
      var inRun' := IsSpace(x[0]);
      RunsFromAfterWord(x[1..], z, r, inRun');
      var h := if IsSpace(x[0]) then (if inRun then "" else r) else [x[0]];
      assert RunsFrom(s, r, inRun) == h + RunsFrom(x[1..] + z, r, inRun');
      assert RunsFrom(x, r, inRun) == h + RunsFrom(x[1..], r, inRun');
      assert h + (RunsFrom(x[1..], r, inRun') + RunsFrom(z, r, false))
        == (h + RunsFrom(x[1..], r, inRun')) + RunsFrom(z, r, false);
    }
  }

  /** A non-empty run of white space at the start gives one `r`. */
  lemma {:induction false} RunsFromBlanks(b: string, y: string, r: string, inRun: bool)
    requires b != [] && forall i :: 0 <= i < |b| ==> IsSpace(b[i])
    requires y == [] || !IsSpace(y[0])
    ensures RunsFrom(b + y, r, inRun) == (if inRun then "" else r) + RunsFrom(y, r, false)
    decreases |b|
  {
    var s := b + y;
    assert s[0] == b[0] && s[1..] == b[1..] + y;
    if |b| == 1 {
      assert b[1..] + y == y;
      if y != [] {
        assert RunsFrom(y, r, true) == RunsFrom(y, r, false);
      }
    } else {
      RunsFromBlanks(b[1..], y, r, true);
    }
  }

  /** `replace(/\s+/g, r)` turns each maximal run of white space into exactly
      one `r`: a run between two parts that neither end nor start with white
      space becomes one `r` between their replacements. */
  lemma ReplaceSpaceRunOnce(x: string, b: string, y: string, r: string)
    requires x == [] || !IsSpace(x[|x| - 1])
    requires b != [] && forall i :: 0 <= i < |b| ==> IsSpace(b[i])
    requires y == [] || !IsSpace(y[0])
    ensures ReplaceSpaceRuns(x + b + y, r) == ReplaceSpaceRuns(x, r) + r + ReplaceSpaceRuns(y, r)
  {
    var z, ry := b + y, RunsFrom(y, r, false);
    assert RunsFrom(z, r, false) == r + ry by {
      RunsFromBlanks(b, y, r, false);
    }
    assert x + b + y == x + z;
    if x == [] {
      assert x + z == z;
      assert r + ry == "" + r + ry;
    } else {
      var rx := RunsFrom(x, r, false);
      assert RunsFrom(x + z, r, false) == rx + (r + ry) by {
        RunsFromAfterWord(x, z, r, false);
      }
      assert rx + (r + ry) == rx + r + ry;
    }
  }

  /** A run of white space cannot reach across a non-space character. */
  lemma ReplaceSpaceRunsAround(a: string, c: char, b: string, r: string)
    requires !IsSpace(c)
    ensures ReplaceSpaceRuns(a + [c] + b, r) == ReplaceSpaceRuns(a, r) + [c] + ReplaceSpaceRuns(b, r)
  {
    var y := [c] + b;
    assert a + [c] + b == a + y && y[0] == c && y[1..] == b;
    RunsFromAppend(a, y, r, false);
  }

  /** Keeps the characters of `s` that satisfy `keep` (a regular-expression
      `replace(/[^...]/g, '')`). */
  function Keep(s: string, keep: char -> bool): (r: string)
    ensures |r| <= |s|
    ensures forall i :: 0 <= i < |r| ==> keep(r[i])
  {
    if s == [] then ""
    else (if keep(s[0]) then [s[0]] else "") + Keep(s[1..], keep)
  }

  lemma {:induction false} KeepAppend(a: string, b: string, keep: char -> bool)
    ensures Keep(a + b, keep) == Keep(a, keep) + Keep(b, keep)
  {
    if a == [] {
      assert a + b == b;
    } else {
      var s := a + b;
      assert s[0] == a[0] && s[1..] == a[1..] + b;
      var h := if keep(a[0]) then [a[0]] else "";
      KeepAppend(a[1..], b, keep);
      var ka, kb := Keep(a[1..], keep), Keep(b, keep);
      assert Keep(s, keep) == h + (ka + kb);
      assert Keep(a, keep) == h + ka;
      assert h + (ka + kb) == (h + ka) + kb;
    }
  }

  /** `s.replace(pat, rep)` with a string pattern: only the first occurrence
      is replaced; a missing pattern leaves `s` as it is. */
  function ReplaceFirst(s: string, pat: string, rep: string): (r: string)
    ensures !Includes(s, pat) ==> r == s
    ensures Includes(s, pat) ==>
      exists i :: OccursAt(s, pat, i) && (forall j :: 0 <= j < i ==> !OccursAt(s, pat, j)) &&
                  r == s[..i] + rep + s[i + |pat|..]
    ensures Includes(s, pat) ==> Includes(r, rep)
  {
    match IndexOf(s, pat, 0)
    case None => s
    case Some(i) =>
      var r := s[..i] + rep + s[i + |pat|..];
      assert OccursAt(r, rep, i);
      r
  }

  /** Only the first occurrence is replaced: a later occurrence that does
      not overlap an earlier one is still in the result. */
  lemma ReplaceFirstKeepsLater(s: string, pat: string, rep: string, i: nat, j: nat)
    requires OccursAt(s, pat, i) && OccursAt(s, pat, j) && i + |pat| <= j
    ensures Includes(ReplaceFirst(s, pat, rep), pat)
  {
    var f := IndexOf(s, pat, 0).value;
    assert f <= i;
    var r := s[..f] + rep + s[f + |pat|..];
    assert ReplaceFirst(s, pat, rep) == r;
    var head, tail := s[..f] + rep, s[f + |pat|..];
    assert tail[j - f - |pat|..j - f] == s[j..j + |pat|];
    assert OccursAt(tail, pat, j - f - |pat|);
    IncludesMiddle(head, tail, "");
    assert r == head + tail + "";
    IncludesTrans(r, tail, pat);
  }
}
