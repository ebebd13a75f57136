/** The front-matter reader and the three identifier builders of the
    Deliver-Products curation script: `parseFrontmatter`, `toCamelCase`,
    `toPackageName` and `toFunctionName`. */
module CurateBatch {
  import opened Seqs
  import opened Text

  // ---- the front-matter block: /^---\n([\s\S]*?)\n---/ ----

  /** The text between an opening `---` line at the very start of `content`
      and the first closing `\n---` after it; absent when either is missing. */
  function FrontmatterBlock(content: string): (r: Option<string>)
    ensures r.Some? <==> StartsWith(content, "---\n") && exists k :: 4 <= k && OccursAt(content, "\n---", k)
    ensures r.Some? ==> StartsWith(content, "---\n" + r.value + "\n---")
    ensures r.Some? ==> forall k :: 4 <= k < 4 + |r.value| ==> !OccursAt(content, "\n---", k)
  {
    if !StartsWith(content, "---\n") then None
    else
      match IndexOf(content, "\n---", 4)
      case None => None
      case Some(k) =>
        var block := content[4..k];
        assert content[..4 + |block| + 4] == "---\n" + block + "\n---" by {
          assert content[..4] == "---\n" && content[k..k + 4] == "\n---";
          assert content[..k + 4] == content[..4] + content[4..k] + content[k..k + 4];
        }
        Some(block)
  }

  /** A front-matter line that cannot close the block: it holds no line
      break and does not begin with a dash. */
  predicate OpenLine(l: string) {
    '\n' !in l && (l == [] || l[0] != '-')
  }

  /** No line break in `s` is followed by a dash. */
  predicate NoDashAfterBreak(s: string) {
    forall m :: 0 <= m < |s| - 1 && s[m] == '\n' ==> s[m + 1] != '-'
  }

  /** Lines that cannot close the block, joined by line breaks. */
  lemma {:induction false} JoinOpenLines(ws: seq<string>)
    requires forall i :: 0 <= i < |ws| ==> OpenLine(ws[i])
    ensures Join(ws, "\n") == [] || Join(ws, "\n")[0] != '-'
    ensures NoDashAfterBreak(Join(ws, "\n"))
  {
    if |ws| > 1 {
      JoinOpenLines(ws[1..]);
      var w, t := ws[0], Join(ws[1..], "\n");
      var s := Join(ws, "\n");
      assert s == w + "\n" + t;
      assert forall m :: 0 <= m < |w| ==> s[m] == w[m];
      assert forall m :: |w| < m < |s| ==> s[m] == t[m - |w| - 1];
    }
  }

  /** A block with no dash after a line break holds no closing `\n---`. */
  lemma DashFreeHasNoClose(block: string)
    requires NoDashAfterBreak(block)
    ensures !Includes(block, "\n---")
  {
    forall p | 0 <= p && p + 4 <= |block|
      ensures !OccursAt(block, "\n---", p)
    {
      assert block[p..p + 4][0] == block[p] && block[p..p + 4][1] == block[p + 1];
    }
  }

  /** A delimiter wholly inside the block would be one of the block's own. */
  lemma NoCloseInside(content: string, block: string, j: int)
    requires 4 <= j && j + 4 <= 4 + |block| <= |content|
    requires content[4..4 + |block|] == block
    requires !Includes(block, "\n---")
    ensures !OccursAt(content, "\n---", j)
  {
    assert content[j..j + 4] == content[4..4 + |block|][j - 4..j];
    assert !OccursAt(block, "\n---", j - 4);
  }

  /** A delimiter starting before a line break and covering it would need
      that line break to be a dash. */
  lemma NoCloseAcrossBreak(content: string, j: int, e: int)
    requires 0 <= j < e < |content| && e < j + 4
    requires content[e] == '\n'
    ensures !OccursAt(content, "\n---", j)
  {
    if j + 4 <= |content| {
      assert content[j..j + 4][e - j] == '\n';
    }
  }

  /** Inside a block that holds no `\n---` the closing delimiter cannot
      start: one that ran past the block's end would need the line break
      after the block to be a dash. */
  lemma NoCloseInBlock(block: string, tail: string)
    requires !Includes(block, "\n---")
    ensures forall j :: 4 <= j < 4 + |block| ==> !OccursAt("---\n" + block + "\n---" + tail, "\n---", j)
  {
    var content := "---\n" + block + "\n---" + tail;
    assert content[4..4 + |block|] == block;
    assert content[4 + |block|] == '\n';
    forall j | 4 <= j < 4 + |block|
      ensures !OccursAt(content, "\n---", j)
    {
      if j + 4 <= 4 + |block| {
        NoCloseInside(content, block, j);
      } else {
        NoCloseAcrossBreak(content, j, 4 + |block|);
      }
    }
  }

  /** A block written between the two fences is read back whole, whatever
      follows the closing `---`, exactly when it holds no `\n---` of its own. */
  lemma FrontmatterOfBlock(block: string, tail: string)
    ensures FrontmatterBlock("---\n" + block + "\n---" + tail) == Some(block) <==> !Includes(block, "\n---")
  {
    var content := "---\n" + block + "\n---" + tail;
    assert content[..4 + |block| + 4] == "---\n" + block + "\n---";
    assert OccursAt(content, "\n---", 4 + |block|) by {
      assert content[4 + |block|..8 + |block|] == content[..4 + |block| + 4][4 + |block|..];
    }
    assert StartsWith(content, "---\n");
    if Includes(block, "\n---") {
      var p :| OccursAt(block, "\n---", p);
      assert content[4 + p..8 + p] == block[p..p + 4];
      assert OccursAt(content, "\n---", 4 + p);
    } else {
      NoCloseInBlock(block, tail);
      var v := FrontmatterBlock(content).value;
      assert OccursAt(content, "\n---", 4 + |v|) by {
        assert content[..4 + |v| + 4] == "---\n" + v + "\n---";
        assert content[4 + |v|..8 + |v|] == content[..4 + |v| + 4][4 + |v|..];
      }
      assert |v| == |block|;
      assert v == content[4..4 + |v|] by {
        assert content[..4 + |v| + 4] == "---\n" + v + "\n---";
      }
      assert block == content[4..4 + |block|];
    }
  }

  // ---- one line: /^(\w+):\s*'?(.+?)'?$/ ----

  function Quote(present: bool): string {
    if present then "'" else ""
  }

  /** `rest` (the text after the colon) splits as the pattern `\s*'?(.+?)'?$`
      allows: `lead` white-space characters, an optional quote, the captured
      value (at least one character, none of them a line terminator, since
      `.` does not match those), an optional quote, the end. */
  predicate Admits(rest: string, lead: nat, open: bool, v: string, close: bool) {
    && lead <= |rest|
    && (forall i :: 0 <= i < lead ==> IsSpace(rest[i]))
    && rest[lead..] == Quote(open) + v + Quote(close)
    && v != []
    && NoLineTerminator(v)
  }

  /** Some split of `rest` that the pattern allows captures `v`. */
  ghost predicate ValueReads(rest: string, v: string) {
    exists lead, open, close :: Admits(rest, lead, open, v, close)
  }

  function DropClosingQuote(u: string): string {
    if |u| >= 2 && u[|u| - 1] == '\'' then u[..|u| - 1] else u
  }

  /** After `lead` white-space characters, an optional quote and `u`. */
  lemma ReadsAfter(rest: string, lead: nat, open: bool, u: string)
    requires lead <= |rest| && forall i :: 0 <= i < lead ==> IsSpace(rest[i])
    requires rest[lead..] == Quote(open) + u
    requires u != [] && NoLineTerminator(u)
    ensures ValueReads(rest, DropClosingQuote(u))
    ensures DropClosingQuote(u) != [] && NoLineTerminator(DropClosingQuote(u))
  {
    var close := |u| >= 2 && u[|u| - 1] == '\'';
    var v := DropClosingQuote(u);
    assert u == v + Quote(close);
    assert Quote(open) + u == Quote(open) + v + Quote(close);
    assert Admits(rest, lead, open, v, close);
  }

  /** The value the pattern captures from `rest`, following its backtracking
      order: `\s*` first takes all leading white space and gives it back one
      character at a time only if nothing else matches; `'?` takes a quote
      when there is one; the lazy `(.+?)` stops one character before a final
      quote, or else at the end. */
  function LineValue(rest: string): (r: Option<string>)
    ensures r.Some? ==> ValueReads(rest, r.value)
    ensures r.Some? ==> r.value != [] && NoLineTerminator(r.value)
    ensures r.None? ==> forall v :: !ValueReads(rest, v)
  {
    var w := SpaceLength(rest);
    var t := rest[w..];
    if t == [] then
      if w > 0 && !IsLineTerminator(rest[w - 1]) then
        ReadsAfter(rest, w - 1, false, [rest[w - 1]]);
        Some([rest[w - 1]])
      else
        NoValueInBlank(rest);
        None
    else if t[0] == '\'' && |t| >= 2 && NoLineTerminator(t[1..]) then
      assert t == "'" + t[1..];
      ReadsAfter(rest, w, true, t[1..]);
      Some(DropClosingQuote(t[1..]))
    else if NoLineTerminator(t) then
      ReadsAfter(rest, w, false, t);
      Some(DropClosingQuote(t))
    else
      NoValueAcrossTerminator(rest);
      None
  }

  /** After the colon, white space alone yields no value when it is empty
      or ends with a line terminator. */
  lemma NoValueInBlank(rest: string)
    requires SpaceLength(rest) == |rest|
    requires |rest| == 0 || IsLineTerminator(rest[|rest| - 1])
    ensures forall v :: !ValueReads(rest, v)
  {
    forall lead: nat, open: bool, v: string, close: bool | Admits(rest, lead, open, v, close)
      ensures false
    {
    }
  }

  /** A rest of white space alone that does not end in a line terminator:
      `\s*` gives back its last character, which becomes the value. */
  lemma LineValueOfBlanks(b: string)
    requires b != [] && forall i :: 0 <= i < |b| ==> IsSpace(b[i])
    requires !IsLineTerminator(b[|b| - 1])
    ensures LineValue(b) == Some([b[|b| - 1]])
  {
    SpaceLengthOfBlanks(b, "");
    assert b + "" == b;
  }

  /** What follows the leading white space of an admitted split has no
      line terminator: quotes are not line terminators. */
  lemma AdmitsClean(rest: string, lead: nat, open: bool, v: string, close: bool)
    requires Admits(rest, lead, open, v, close)
    ensures NoLineTerminator(rest[lead..])
  {
    var tail := rest[lead..];
    forall p | 0 <= p < |tail|
      ensures !IsLineTerminator(tail[p])
    {
      var q := |Quote(open)|;
      if q <= p < q + |v| {
        assert tail[p] == v[p - q];
      }
    }
  }

  /** In an admitted split, the leading white space is at most the longest
      white-space prefix, so what follows the latter is clean too. */
  lemma AdmitsCleanAfterSpace(rest: string, lead: nat, open: bool, v: string, close: bool)
    requires Admits(rest, lead, open, v, close)
    ensures NoLineTerminator(rest[SpaceLength(rest)..])
  {
    var w := SpaceLength(rest);
    AdmitsClean(rest, lead, open, v, close);
    assert lead <= w;
    forall p | 0 <= p < |rest[w..]|
      ensures !IsLineTerminator(rest[w..][p])
    {
      assert rest[w..][p] == rest[lead..][w - lead + p];
    }
  }

  /** A line terminator after the leading white space rules out every split. */
  lemma NoValueAcrossTerminator(rest: string)
    requires SpaceLength(rest) < |rest|
    requires !NoLineTerminator(rest[SpaceLength(rest)..])
    ensures forall v :: !ValueReads(rest, v)
  {
    forall lead: nat, open: bool, v: string, close: bool | Admits(rest, lead, open, v, close)
      ensures false
    {
      AdmitsCleanAfterSpace(rest, lead, open, v, close);
    }
  }

  /** The length of the longest prefix of `s` made of word characters. */
  function KeyLength(s: string): (n: nat)
    ensures n <= |s|
    ensures forall i :: 0 <= i < n ==> IsWordChar(s[i])
    ensures n < |s| ==> !IsWordChar(s[n])
  {
    if s == [] || !IsWordChar(s[0]) then 0 else 1 + KeyLength(s[1..])
  }

  /** `line` is a non-empty word key, a colon, and a rest from which the
      pattern reads the non-empty one-line `value`. */
  ghost predicate LineReads(line: string, key: string, value: string) {
    && key != [] && (forall i :: 0 <= i < |key| ==> IsWordChar(key[i]))
    && StartsWith(line, key + ":")
    && value != [] && NoLineTerminator(value)
    && ValueReads(line[|key| + 1..], value)
  }

  /** A line `key: value` read as the pattern does: the key is a non-empty
      run of word characters up to the colon, the value what `LineValue`
      captures from the rest; any other line yields nothing. */
  function MatchLine(line: string): (r: Option<(string, string)>)
    ensures r.Some? ==> LineReads(line, r.value.0, r.value.1)
  {
    var n := KeyLength(line);
    if n == 0 || n == |line| || line[n] != ':' then None
    else
      match LineValue(line[n + 1..])
      case None => None
      case Some(v) =>
        MatchedLineReads(line, n, v);
        Some((line[..n], v))
  }

  /** A key of `n` word characters, a colon, and a value read from the rest. */
  lemma MatchedLineReads(line: string, n: nat, v: string)
    requires 0 < n < |line| && line[n] == ':'
    requires forall i :: 0 <= i < n ==> IsWordChar(line[i])
    requires LineValue(line[n + 1..]) == Some(v)
    ensures LineReads(line, line[..n], v)
  {
    var key := line[..n];
    assert line[..n + 1] == key + ":";
    assert line[|key| + 1..] == line[n + 1..];
  }

  /** No other reading of the line is possible: whenever the line is a word
      key, a colon and a rest that the pattern admits, `MatchLine` finds it. */
  lemma MatchLineComplete(line: string, key: string, lead: nat, open: bool, v: string, close: bool)
    requires key != [] && forall i :: 0 <= i < |key| ==> IsWordChar(key[i])
    requires StartsWith(line, key + ":")
    requires Admits(line[|key| + 1..], lead, open, v, close)
    ensures MatchLine(line).Some? && MatchLine(line).value.0 == key
  {
    var rest := line[|key| + 1..];
    assert line == key + ":" + rest by {
      assert line[..|key| + 1] == key + ":";
    }
    MatchLineOf(key, rest);
    assert ValueReads(rest, v);
  }

  /** A word key followed by a non-word character is read up to that character. */
  lemma {:induction false} KeyLengthOf(key: string, rest: string)
    requires forall i :: 0 <= i < |key| ==> IsWordChar(key[i])
    requires rest == [] || !IsWordChar(rest[0])
    ensures KeyLength(key + rest) == |key|
  {
    if key != [] {
      assert (key + rest)[1..] == key[1..] + rest;
      KeyLengthOf(key[1..], rest);
    }
  }

  /** `key: rest` is matched with the key `key` and the value read from `rest`. */
  lemma MatchLineOf(key: string, rest: string)
    requires key != [] && forall i :: 0 <= i < |key| ==> IsWordChar(key[i])
    ensures MatchLine(key + ":" + rest) ==
      match LineValue(rest) case None => None case Some(v) => Some((key, v))
  {
    var line := key + ":" + rest;
    assert line == key + (":" + rest);
    KeyLengthOf(key, ":" + rest);
    assert line[..|key|] == key && line[|key|] == ':' && line[|key| + 1..] == rest;
  }

  /** After the longest run of blanks, a quote and a one-line rest: the
      value is that rest with a closing quote dropped. */
  lemma LineValueAfterQuote(rest: string, u: string)
    requires SpaceLength(rest) < |rest| && rest[SpaceLength(rest)..] == "'" + u
    requires u != [] && NoLineTerminator(u)
    ensures LineValue(rest) == Some(DropClosingQuote(u))
  {
    var t := rest[SpaceLength(rest)..];
    assert t[0] == '\'' && t[1..] == u;
  }

  /** Blanks, then a value between quotes: the quotes are dropped, however
      many blanks (none included) come first. */
  lemma LineValueQuoted(b: string, v: string)
    requires forall i :: 0 <= i < |b| ==> IsSpace(b[i])
    requires v != [] && NoLineTerminator(v)
    ensures LineValue(b + "'" + v + "'") == Some(v)
  {
    var u := v + "'";
    var t := "'" + u;
    assert b + "'" + v + "'" == b + t;
    assert SpaceLength(b + t) == |b| by {
      SpaceLengthOfBlanks(b, t);
    }
    assert (b + t)[|b|..] == t;
    assert NoLineTerminator(u) by {
      forall i | 0 <= i < |u|
        ensures !IsLineTerminator(u[i])
      {
        if i < |v| { assert u[i] == v[i]; }
      }
    }
    assert DropClosingQuote(u) == v by {
      assert u[..|u| - 1] == v;
    }
    LineValueAfterQuote(b + t, u);
  }

  /** Blanks, then an unquoted value that does not start with white space or
      a quote and does not end with a quote: the value is read as written. */
  lemma LineValuePlain(b: string, v: string)
    requires forall i :: 0 <= i < |b| ==> IsSpace(b[i])
    requires v != [] && NoLineTerminator(v)
    requires !IsSpace(v[0]) && v[0] != '\'' && v[|v| - 1] != '\''
    ensures LineValue(b + v) == Some(v)
  {
    SpaceLengthOfBlanks(b, v);
    assert (b + v)[|b|..] == v;
  }

  /** `key:` and a quoted value after any blanks reads back as the key and
      the value without its quotes. */
  lemma QuotedValueRoundTrip(key: string, b: string, v: string)
    requires key != [] && forall i :: 0 <= i < |key| ==> IsWordChar(key[i])
    requires forall i :: 0 <= i < |b| ==> IsSpace(b[i])
    requires v != [] && NoLineTerminator(v)
    ensures MatchLine(key + ":" + b + "'" + v + "'") == Some((key, v))
  {
    var rest := b + "'" + v + "'";
    assert key + ":" + b + "'" + v + "'" == key + ":" + rest;
    MatchLineOf(key, rest);
    LineValueQuoted(b, v);
  }

  /** `key:` and an unquoted value after any blanks reads back as the key and
      the value, provided the value does not start with white space or a
      quote and does not end with a quote. */
  lemma PlainValueRoundTrip(key: string, b: string, v: string)
    requires key != [] && forall i :: 0 <= i < |key| ==> IsWordChar(key[i])
    requires forall i :: 0 <= i < |b| ==> IsSpace(b[i])
    requires v != [] && NoLineTerminator(v)
    requires !IsSpace(v[0]) && v[0] != '\'' && v[|v| - 1] != '\''
    ensures MatchLine(key + ":" + b + v) == Some((key, v))
  {
    var rest := b + v;
    assert key + ":" + b + v == key + ":" + rest;
    MatchLineOf(key, rest);
    LineValuePlain(b, v);
  }

  // ---- the record built by the loop ----

  /** Assigning `fm['__proto__']` a string goes to the prototype setter,
      which ignores it, so no entry with that key is ever created. */
  const ProtoKey: string := "__proto__"

  /** `if (m) fm[m[1]] = m[2]` for one line. */
  function Store(fm: map<string, string>, line: string): map<string, string> {
    match MatchLine(line)
    case None => fm
    case Some((key, value)) => if key == ProtoKey then fm else fm[key := value]
  }

  /** The record after the loop has read every line, in order. */
  function Entries(lines: seq<string>): map<string, string>
    decreases |lines|
  {
    if lines == [] then map[]
    else Store(Entries(lines[..|lines| - 1]), lines[|lines| - 1])
  }

  /** Reading one more line stores it on top of the record so far. */
  lemma EntriesSnoc(lines: seq<string>, line: string)
    ensures Entries(lines + [line]) == Store(Entries(lines), line)
  {
    assert (lines + [line])[..|lines|] == lines;
  }

  predicate Defines(line: string, key: string) {
    MatchLine(line).Some? && MatchLine(line).value.0 == key
  }

  /** The index of the last line that defines `key`, if any. */
  function LastDefinition(lines: seq<string>, key: string): Option<nat> {
    LastIndex(lines, (l: string) => Defines(l, key))
  }

  /** A key is recorded exactly when some line defines it (the prototype key
      never is), and its value is the non-empty one from the LAST line
      defining it. */
  lemma {:induction false} EntriesLastWins(lines: seq<string>, key: string)
    ensures key in Entries(lines) <==> key != ProtoKey && LastDefinition(lines, key).Some?
    ensures key in Entries(lines) ==>
      Entries(lines)[key] == MatchLine(lines[LastDefinition(lines, key).value]).value.1 &&
      Entries(lines)[key] != []
    decreases |lines|
  {
    if lines != [] {
      var n := |lines| - 1;
      var init := lines[..n];
      EntriesLastWins(init, key);
      assert forall i :: 0 <= i < n ==> init[i] == lines[i];
      var m := MatchLine(lines[n]);
      if m.Some? && m.value.0 == key {
        assert Defines(lines[n], key);
      } else {
        assert !Defines(lines[n], key);
        assert LastIndex(lines, (l: string) => Defines(l, key)) == LastIndex(init, (l: string) => Defines(l, key));
      }
    }
  }

  /** `parseFrontmatter(content)`: the entries of the front-matter block, one
      per `key: value` line, later lines overwriting earlier ones; fails when
      there is no block. Every value stays a string (also `metricsAvailable`):
      the result is cast to the `Frontmatter` interface without conversion. */
  method ParseFrontmatter(content: string) returns (r: Result<map<string, string>>)
    ensures FrontmatterBlock(content).None? ==> r == Failure("No frontmatter found")
    ensures FrontmatterBlock(content).Some? ==>
      r == Success(Entries(Split(FrontmatterBlock(content).value, '\n')))
  {
    var block := FrontmatterBlock(content);
    if block.None? {
      return Failure("No frontmatter found");
    }
    var lines := Split(block.value, '\n');
    var fm: map<string, string> := map[];
    for i := 0 to |lines|
      invariant fm == Entries(lines[..i])
    {
      EntriesSnoc(lines[..i], lines[i]);
      assert lines[..i + 1] == lines[..i] + [lines[i]];
      var m := MatchLine(lines[i]);
      if m.Some? && m.value.0 != ProtoKey {
        fm := fm[m.value.0 := m.value.1];
      }
      assert fm == Store(Entries(lines[..i]), lines[i]);
    }
    assert lines[..|lines|] == lines;
    return Success(fm);
  }

  const ExampleLines: seq<string> := ["name: 'Ops'", "metricsAvailable: true", "notes"]

  /** The example block is found whole and splits back into its lines. */
  lemma ExampleBlock(block: string)
    requires block == Join(ExampleLines, "\n")
    ensures FrontmatterBlock("---\n" + block + "\n---\n") == Some(block)
    ensures Split(block, '\n') == ExampleLines
  {
    var lines := ExampleLines;
    forall i | 0 <= i < |lines|
      ensures OpenLine(lines[i])
    {
    }
    JoinOpenLines(lines);
    DashFreeHasNoClose(block);
    FrontmatterOfBlock(block, "\n");
    assert "---\n" + block + "\n---" + "\n" == "---\n" + block + "\n---\n";
    SplitJoin(lines, '\n');
  }

  lemma ExampleName(line: string)
    requires line == "name: 'Ops'"
    ensures MatchLine(line) == Some(("name", "Ops"))
  {
    var k, b, v := "name", " ", "Ops";
    assert line == k + ":" + b + "'" + v + "'";
    QuotedValueRoundTrip(k, b, v);
  }

  lemma ExampleFlag(line: string)
    requires line == "metricsAvailable: true"
    ensures MatchLine(line) == Some(("metricsAvailable", "true"))
  {
    var k, b, v := "metricsAvailable", " ", "true";
    assert line == k + ":" + b + v;
    PlainValueRoundTrip(k, b, v);
  }

  lemma ExampleNote(line: string)
    requires line == "notes"
    ensures MatchLine(line) == None
  {
    KeyLengthOf(line, "");
    assert line + "" == line;
  }

  /** Three lines of which the first two define different keys and the
      third defines none give exactly the first two entries. */
  lemma ThreeLineEntries(l0: string, l1: string, l2: string, k0: string, v0: string, k1: string, v1: string)
    requires MatchLine(l0) == Some((k0, v0)) && MatchLine(l1) == Some((k1, v1)) && MatchLine(l2) == None
    requires k0 != ProtoKey && k1 != ProtoKey
    ensures Entries([l0, l1, l2]) == map[k0 := v0, k1 := v1]
  {
    EntriesSnoc([], l0);
    assert [] + [l0] == [l0];
    EntriesSnoc([l0], l1);
    assert [l0] + [l1] == [l0, l1];
    EntriesSnoc([l0, l1], l2);
    assert [l0, l1] + [l2] == [l0, l1, l2];
  }

  /** The example lines: the quoted name loses its quotes, the flag stays
      the string "true", and the line without a colon adds nothing. */
  lemma ExampleEntries(l0: string, l1: string, l2: string)
    requires l0 == "name: 'Ops'" && l1 == "metricsAvailable: true" && l2 == "notes"
    ensures Entries([l0, l1, l2]) == map["name" := "Ops", "metricsAvailable" := "true"]
  {
    ExampleName(l0);
    ExampleFlag(l1);
    ExampleNote(l2);
    ThreeLineEntries(l0, l1, l2, "name", "Ops", "metricsAvailable", "true");
  }

  /** `parseFrontmatter` on a small document. */
  method ParseFrontmatterExample() returns (r: Result<map<string, string>>)
    ensures r == Success(map["name" := "Ops", "metricsAvailable" := "true"])
  {
    var block := Join(ExampleLines, "\n");
    ExampleBlock(block);
    ExampleEntries(ExampleLines[0], ExampleLines[1], ExampleLines[2]);
    r := ParseFrontmatter("---\n" + block + "\n---\n");
  }

  // ---- identifier builders ----

  /** `w.charAt(0).toUpperCase() + w.slice(1).toLowerCase()`: the word up to
      case, whose only upper-case letter is a leading letter. */
  function Capitalize(w: string): (r: string)
    ensures Lower(r) == Lower(w) && |r| == |w|
    ensures forall j :: 0 <= j < |r| ==> (IsUpper(r[j]) <==> j == 0 && (IsUpper(w[j]) || IsLower(w[j])))
  {
    if w == [] then "" else
      var r := Upper(w[..1]) + Lower(w[1..]);
      assert Lower(r) == Lower(w) by {
        assert w == w[..1] + w[1..];
        LowerAppend(Upper(w[..1]), Lower(w[1..]));
        LowerOfUpper(w[..1]);
        LowerIdempotent(w[1..]);
        LowerAppend(w[..1], w[1..]);
      }
      assert forall j :: 0 < j < |r| ==> r[j] == Lower(w[1..])[j - 1];
      r
  }

  /** The word at position `i` of the camel-case list. */
  function CamelWord(w: string, i: nat): (r: string)
    ensures Lower(r) == Lower(w) && |r| == |w|
    ensures forall j :: 0 <= j < |r| ==> (IsUpper(r[j]) <==> 0 < i && j == 0 && (IsUpper(w[j]) || IsLower(w[j])))
  {
    if i == 0 then LowerIdempotent(w); Lower(w) else Capitalize(w)
  }

  /** `.map((w, i) => i === 0 ? w.toLowerCase() : capitalize(w))`: an
      upper-case letter can only be the first character of a word after the
      first, and each word is its input word up to case. */
  function CamelWords(ws: seq<string>): (r: seq<string>)
    ensures |r| == |ws|
    ensures forall i :: 0 <= i < |ws| ==> Lower(r[i]) == Lower(ws[i]) && |r[i]| == |ws[i]|
    ensures forall i, j :: 0 <= i < |r| && 0 <= j < |r[i]| ==>
      (IsUpper(r[i][j]) <==> 0 < i && j == 0 && (IsUpper(ws[i][j]) || IsLower(ws[i][j])))
  {
    seq(|ws|, i requires 0 <= i < |ws| => CamelWord(ws[i], i))
  }

  /** Words equal up to case join to strings equal up to case. */
  lemma {:induction false} LowerJoinCaseless(a: seq<string>, b: seq<string>)
    requires |a| == |b|
    requires forall i :: 0 <= i < |a| ==> Lower(a[i]) == Lower(b[i])
    ensures Lower(Join(a, "")) == Lower(Join(b, ""))
  {
    if a != [] {
      LowerJoinCaseless(a[1..], b[1..]);
      assert a == [a[0]] + a[1..] && b == [b[0]] + b[1..];
      JoinConsEmptySep(a[0], a[1..]);
      JoinConsEmptySep(b[0], b[1..]);
      LowerAppend(a[0], Join(a[1..], ""));
      LowerAppend(b[0], Join(b[1..], ""));
    }
  }

  /** Changing case never turns a character into white space or back. */
  lemma CaseKeepsSpace(s: string)
    ensures NoSpace(Lower(s)) <==> NoSpace(s)
  {
  }

  lemma {:induction false} JoinNoSpace(ws: seq<string>)
    requires forall i :: 0 <= i < |ws| ==> NoSpace(ws[i])
    ensures NoSpace(Join(ws, ""))
  {
    if ws != [] {
      JoinNoSpace(ws[1..]);
      assert ws == [ws[0]] + ws[1..];
      JoinConsEmptySep(ws[0], ws[1..]);
    }
  }

  /** The words of `s` in camel case, up to case equal to `s` without its
      white space, and with no white space of their own. */
  function CamelJoin(s: string): (r: string)
    ensures NoSpace(r)
    ensures Lower(r) == Lower(RemoveSpaces(s))
    ensures |r| == |RemoveSpaces(s)|
  {
    var ws := SplitOnSpaces(s);
    var r := Join(CamelWords(ws), "");
    LowerJoinCaseless(CamelWords(ws), ws);
    forall i | 0 <= i < |ws|
      ensures NoSpace(CamelWords(ws)[i])
    {
      CaseKeepsSpace(ws[i]);
      CaseKeepsSpace(CamelWords(ws)[i]);
    }
    JoinNoSpace(CamelWords(ws));
    r
  }

  /** Words joined by single spaces come out of `CamelJoin` as exactly
      those words in camel case: the first lower-cased, each later one
      capitalized. */
  lemma CamelJoinOfWords(ws: seq<string>)
    requires ws != []
    requires forall i :: 0 <= i < |ws| ==> NoSpace(ws[i])
    requires forall i :: 1 <= i < |ws| ==> ws[i] != []
    ensures CamelJoin(Join(ws, " ")) == Join(CamelWords(ws), "")
  {
    SplitJoinSpaces(ws);
  }

  /** The characters `toCamelCase` keeps: `[a-zA-Z0-9\s]`. */
  predicate CamelChar(c: char) {
    IsAlnum(c) || IsSpace(c)
  }

  lemma {:induction false} RemoveSpacesOfCamelChars(s: string)
    ensures RemoveSpaces(Keep(s, CamelChar)) == Keep(s, IsAlnum)
  {
    if s != [] {
      RemoveSpacesOfCamelChars(s[1..]);
      var head := if CamelChar(s[0]) then [s[0]] else "";
      assert Keep(s, CamelChar) == head + Keep(s[1..], CamelChar);
      RemoveSpacesAppend(head, Keep(s[1..], CamelChar));
      if CamelChar(s[0]) {
        assert head[1..] == "";
      }
    }
  }

  /** `toCamelCase(str)`: only ASCII letters and digits, and up to case
      exactly the letters and digits of `str`, in order. */
  function ToCamelCase(str: string): (r: string)
    ensures forall i :: 0 <= i < |r| ==> IsAlnum(r[i])
    ensures Lower(r) == Lower(Keep(str, IsAlnum))
  {
    var r := CamelJoin(Keep(str, CamelChar));
    RemoveSpacesOfCamelChars(str);
    var kept := Keep(str, IsAlnum);
    assert forall i :: 0 <= i < |r| ==> IsAlnum(r[i]) by {
      forall i | 0 <= i < |r|
        ensures IsAlnum(r[i])
      {
        assert Lower(r)[i] == LowerChar(r[i]) && Lower(kept)[i] == LowerChar(kept[i]);
      }
    }
    r
  }

  /** Words of letters and digits joined by single spaces hold only the
      characters `toCamelCase` keeps. */
  lemma {:induction false} JoinWordsCamelChars(ws: seq<string>)
    requires forall i, j :: 0 <= i < |ws| && 0 <= j < |ws[i]| ==> IsAlnum(ws[i][j])
    ensures forall k :: 0 <= k < |Join(ws, " ")| ==> CamelChar(Join(ws, " ")[k])
    decreases |ws|
  {
    if |ws| > 1 {
      var rest := Join(ws[1..], " ");
      JoinWordsCamelChars(ws[1..]);
      assert forall i, j :: 0 <= i < |ws[1..]| && 0 <= j < |ws[1..][i]| ==> ws[1..][i][j] == ws[i + 1][j];
      var s := Join(ws, " ");
      assert s == ws[0] + " " + rest;
      forall k | 0 <= k < |s|
        ensures CamelChar(s[k])
      {
        if k < |ws[0]| {
          assert s[k] == ws[0][k];
        } else if k > |ws[0]| {
          assert s[k] == rest[k - |ws[0]| - 1];
        }
      }
    }
  }

  /** Words of letters and digits joined by single spaces: `toCamelCase`
      gives the first word lower-cased and each later word capitalized. */
  lemma ToCamelCaseOfWords(ws: seq<string>)
    requires ws != []
    requires forall i, j :: 0 <= i < |ws| && 0 <= j < |ws[i]| ==> IsAlnum(ws[i][j])
    requires forall i :: 1 <= i < |ws| ==> ws[i] != []
    ensures ToCamelCase(Join(ws, " ")) == Join(CamelWords(ws), "")
  {
    var s := Join(ws, " ");
    JoinWordsCamelChars(ws);
    KeepAll(s, CamelChar);
    assert forall i :: 0 <= i < |ws| ==> NoSpace(ws[i]) by {
      forall i | 0 <= i < |ws|
        ensures NoSpace(ws[i])
      {
        assert forall j :: 0 <= j < |ws[i]| ==> IsAlnum(ws[i][j]);
      }
    }
    CamelJoinOfWords(ws);
  }

  /** The characters a package name may hold: `[a-z0-9-]`. */
  predicate PackageChar(c: char) {
    IsLower(c) || IsDigit(c) || c == '-'
  }

  /** The letters and digits a package name keeps: `[a-z0-9]`. */
  predicate LowerAlnum(c: char) {
    IsLower(c) || IsDigit(c)
  }

  /** Keeping package characters and then letters and digits keeps exactly
      the lower-case letters and the digits. */
  lemma {:induction false} KeepPackageThenAlnum(x: string)
    ensures Keep(Keep(x, PackageChar), IsAlnum) == Keep(x, LowerAlnum)
  {
    if x != [] {
      KeepPackageThenAlnum(x[1..]);
      var h := if PackageChar(x[0]) then [x[0]] else "";
      assert Keep(x, PackageChar) == h + Keep(x[1..], PackageChar);
      KeepAppend(h, Keep(x[1..], PackageChar), IsAlnum);
      assert Keep(h, IsAlnum) == if LowerAlnum(x[0]) then [x[0]] else "";
    }
  }

  /** Turning white-space runs into dashes adds no letter or digit and
      removes none. */
  lemma {:induction false} RunsKeepLowerAlnum(y: string, inRun: bool)
    ensures Keep(RunsFrom(y, "-", inRun), LowerAlnum) == Keep(y, LowerAlnum)
    decreases |y|
  {
    if y != [] {
      var h := if IsSpace(y[0]) then (if inRun then "" else "-") else [y[0]];
      var rest := RunsFrom(y[1..], "-", IsSpace(y[0]));
      RunsKeepLowerAlnum(y[1..], IsSpace(y[0]));
      assert RunsFrom(y, "-", inRun) == h + rest;
      KeepAppend(h, rest, LowerAlnum);
      if IsSpace(y[0]) {
        assert Keep(h, LowerAlnum) == "";
      } else {
        assert Keep(h, LowerAlnum) == if LowerAlnum(y[0]) then [y[0]] else "";
      }
    }
  }

  /** The lower-case letters and digits of the lower-cased text are the
      lower-cased letters and digits of the text. */
  lemma {:induction false} KeepLowerAlnumOfLower(s: string)
    ensures Keep(Lower(s), LowerAlnum) == Lower(Keep(s, IsAlnum))
  {
    if s != [] {
      KeepLowerAlnumOfLower(s[1..]);
      var h := if IsAlnum(s[0]) then [s[0]] else "";
      assert Lower(s)[1..] == Lower(s[1..]);
      assert Keep(s, IsAlnum) == h + Keep(s[1..], IsAlnum);
      LowerAppend(h, Keep(s[1..], IsAlnum));
    }
  }

  /** The package-name pipeline keeps exactly the letters and digits of its
      input, lower-cased, in order. */
  lemma PackageLetters(s: string)
    ensures Keep(Keep(ReplaceSpaceRuns(Lower(s), "-"), PackageChar), IsAlnum) == Lower(Keep(s, IsAlnum))
  {
    KeepPackageThenAlnum(ReplaceSpaceRuns(Lower(s), "-"));
    RunsKeepLowerAlnum(Lower(s), false);
    KeepLowerAlnumOfLower(s);
  }

  /** The dash joining verb and object is neither a letter nor a digit. */
  lemma DashAddsNoAlnum(verb: string, obj: string)
    ensures Keep(verb + "-" + obj, IsAlnum) == Keep(verb + obj, IsAlnum)
  {
    var d := "-";
    assert Keep(d, IsAlnum) == "" by {
      assert d[1..] == "";
    }
    KeepAppend(verb + d, obj, IsAlnum);
    KeepAppend(verb, d, IsAlnum);
    KeepAppend(verb, obj, IsAlnum);
    assert Keep(verb, IsAlnum) + "" == Keep(verb, IsAlnum);
  }

  /** The package-name treatment of one side: only `a-z`, `0-9` and `-`,
      and apart from the dashes exactly the side's letters and digits,
      lower-cased, in order. */
  function Slug(s: string): (r: string)
    ensures forall i :: 0 <= i < |r| ==> PackageChar(r[i])
    ensures Keep(r, IsAlnum) == Lower(Keep(s, IsAlnum))
  {
    PackageLetters(s);
    Keep(ReplaceSpaceRuns(Lower(s), "-"), PackageChar)
  }

  /** A word without white space keeps every `-` it has: its slug is the
      word lower-cased with only `a-z`, `0-9` and `-` kept. */
  lemma SlugOfWord(x: string)
    requires NoSpace(x)
    ensures Slug(x) == Keep(Lower(x), PackageChar)
  {
    assert NoSpace(Lower(x)) by {
      CaseKeepsSpace(x);
    }
    ReplaceSpaceRunsOfWord(Lower(x), "-");
  }

  /** Each run of white space becomes exactly one `-`: two words with a run
      of blanks between them give the two words' slugs joined by one dash. */
  lemma SlugAtBlankRun(x: string, b: string, y: string)
    requires x == [] || !IsSpace(x[|x| - 1])
    requires b != [] && forall i :: 0 <= i < |b| ==> IsSpace(b[i])
    requires y == [] || !IsSpace(y[0])
    ensures Slug(x + b + y) == Slug(x) + "-" + Slug(y)
  {
    var lx, lb, ly := Lower(x), Lower(b), Lower(y);
    LowerAppend(x + b, y);
    LowerAppend(x, b);
    assert Lower(x + b + y) == lx + lb + ly;
    assert forall i :: 0 <= i < |lb| ==> lb[i] == LowerChar(b[i]) == b[i];
    assert lx == [] || lx[|lx| - 1] == LowerChar(x[|x| - 1]);
    assert ly == [] || ly[0] == LowerChar(y[0]);
    ReplaceSpaceRunOnce(lx, lb, ly, "-");
    var rx, ry := ReplaceSpaceRuns(lx, "-"), ReplaceSpaceRuns(ly, "-");
    KeepAppend(rx + "-", ry, PackageChar);
    KeepAppend(rx, "-", PackageChar);
    assert Keep("-", PackageChar) == "-" by {
      assert "-"[1..] == "";
    }
  }

  /** `toPackageName(verb, obj)`: only `a-z`, `0-9` and `-`, and apart from
      the dashes exactly the letters and digits of verb and object,
      lower-cased, in order. */
  function ToPackageName(verb: string, obj: string): (r: string)
    ensures forall i :: 0 <= i < |r| ==> PackageChar(r[i])
    ensures Keep(r, IsAlnum) == Lower(Keep(verb + obj, IsAlnum))
  {
    PackageLetters(verb + "-" + obj);
    DashAddsNoAlnum(verb, obj);
    Keep(ReplaceSpaceRuns(Lower(verb + "-" + obj), "-"), PackageChar)
  }

  /** The `-` between verb and object always survives: the package name is
      the verb's part and the object's part on either side of it. */
  lemma PackageNameSplitsAtDash(verb: string, obj: string)
    ensures ToPackageName(verb, obj) == Slug(verb) + "-" + Slug(obj)
    ensures '-' in ToPackageName(verb, obj)
  {
    LowerAppend(verb + "-", obj);
    LowerAppend(verb, "-");
    assert Lower("-") == "-";
    ReplaceSpaceRunsAround(Lower(verb), '-', Lower(obj), "-");
    var a, b := ReplaceSpaceRuns(Lower(verb), "-"), ReplaceSpaceRuns(Lower(obj), "-");
    KeepAppend(a + "-", b, PackageChar);
    KeepAppend(a, "-", PackageChar);
    assert Keep("-", PackageChar) == "-";
    assert (Slug(verb) + "-" + Slug(obj))[|Slug(verb)|] == '-';
  }

  /** `toFunctionName(verb, obj)`: no white space, at most one character
      longer than verb and object together, and up to case the two with
      their white space removed. */
  function ToFunctionName(verb: string, obj: string): (r: string)
    ensures NoSpace(r)
    ensures |r| <= |verb| + |obj| + 1
    ensures Lower(r) == Lower(RemoveSpaces(verb + " " + obj))
  {
    RemoveSpacesShorter(verb + " " + obj);
    CamelJoin(verb + " " + obj)
  }

  /** A verb and an object of one or more words separated by single
      spaces: the function name is the verb lower-cased followed by each
      object word capitalized. */
  lemma ToFunctionNameOfWords(verb: string, words: seq<string>)
    requires NoSpace(verb)
    requires words != []
    requires forall i :: 0 <= i < |words| ==> NoSpace(words[i]) && words[i] != []
    ensures ToFunctionName(verb, Join(words, " ")) == Join(CamelWords([verb] + words), "")
  {
    var ws, obj := [verb] + words, Join(words, " ");
    assert Join(ws, " ") == verb + " " + obj by {
      JoinCons(verb, words, " ");
    }
    assert forall i :: 0 <= i < |ws| ==> NoSpace(ws[i]) by {
      forall i | 0 <= i < |ws|
        ensures NoSpace(ws[i])
      {
        if i > 0 { assert ws[i] == words[i - 1]; }
      }
    }
    assert forall i :: 1 <= i < |ws| ==> ws[i] != [] by {
      forall i | 1 <= i < |ws|
        ensures ws[i] != []
      {
        assert ws[i] == words[i - 1];
      }
    }
    CamelJoinOfWords(ws);
    assert ToFunctionName(verb, obj) == CamelJoin(verb + " " + obj);
  }

  /** Three words in camel case: the first lower-cased, the other two
      capitalized. */
  lemma CamelWordsThree(a: string, b: string, c: string)
    ensures CamelWords([a, b, c]) == [Lower(a), Capitalize(b), Capitalize(c)]
  {
    var r := CamelWords([a, b, c]);
    assert r[0] == CamelWord(a, 0) && r[1] == CamelWord(b, 1) && r[2] == CamelWord(c, 2);
  }

  /** A word of lower-case letters after one leading letter: lower-casing
      changes only the leading letter, capitalizing upper-cases it. */
  lemma LeadingLetterCase(h: char, w: string)
    requires forall i :: 0 <= i < |w| ==> IsLower(w[i])
    ensures Lower([h] + w) == [LowerChar(h)] + w
    ensures Capitalize([h] + w) == [UpperChar(h)] + w
  {
    var s := [h] + w;
    assert Lower(w) == w by {
      assert forall i :: 0 <= i < |w| ==> Lower(w)[i] == w[i];
    }
    assert Lower([h]) == [LowerChar(h)] && Upper([h]) == [UpperChar(h)];
    LowerAppend([h], w);
    assert s[..1] == [h] && s[1..] == w;
  }

  /** A one-word verb and a two-word object: the verb lower-cased and both
      object words capitalized, with nothing between them. */
  lemma FunctionNameOfThree(a: string, b: string, c: string)
    requires NoSpace(a) && NoSpace(b) && NoSpace(c)
    requires b != [] && c != []
    ensures ToFunctionName(a, b + " " + c) == Lower(a) + Capitalize(b) + Capitalize(c)
  {
    var ws := [a, b, c];
    assert ToFunctionName(a, b + " " + c) == Join(CamelWords(ws), "") by {
      var words := [b, c];
      assert Join(words, " ") == b + " " + c by {
        JoinCons(b, [c], " ");
      }
      assert forall i :: 0 <= i < |words| ==> NoSpace(words[i]) && words[i] != [] by {
        forall i | 0 <= i < |words|
          ensures NoSpace(words[i]) && words[i] != []
        {
          if i == 0 { assert words[i] == b; } else { assert words[i] == c; }
        }
      }
      ToFunctionNameOfWords(a, words);
      assert [a] + words == ws;
    }
    assert Join(CamelWords(ws), "") == Lower(a) + Capitalize(b) + Capitalize(c) by {
      CamelWordsThree(a, b, c);
      JoinThree(Lower(a), Capitalize(b), Capitalize(c));
    }
  }

  /** Three words joined with nothing between them. */
  lemma JoinThree(x: string, y: string, z: string)
    ensures Join([x, y, z], "") == x + y + z
  {
    JoinConsEmptySep(x, [y, z]);
    JoinConsEmptySep(y, [z]);
    assert [x, y, z] == [x] + [y, z] && [y, z] == [y] + [z];
  }

  /** A letter followed by lower-case letters is a non-empty word. */
  lemma LetterWordNoSpace(h: char, w: string)
    requires !IsSpace(h)
    requires forall i :: 0 <= i < |w| ==> IsLower(w[i])
    ensures NoSpace([h] + w) && [h] + w != []
  {
    assert forall i :: 1 <= i < |w| + 1 ==> ([h] + w)[i] == w[i - 1];
  }

  /** The same three words, each a letter followed by lower-case letters:
      only the leading letters change case. */
  lemma FunctionNameOfLetters(h0: char, w0: string, h1: char, w1: string, h2: char, w2: string)
    requires !IsSpace(h0) && !IsSpace(h1) && !IsSpace(h2)
    requires forall i :: 0 <= i < |w0| ==> IsLower(w0[i])
    requires forall i :: 0 <= i < |w1| ==> IsLower(w1[i])
    requires forall i :: 0 <= i < |w2| ==> IsLower(w2[i])
    ensures ToFunctionName([h0] + w0, ([h1] + w1) + " " + ([h2] + w2))
      == ([LowerChar(h0)] + w0) + ([UpperChar(h1)] + w1) + ([UpperChar(h2)] + w2)
  {
    var a, b, c := [h0] + w0, [h1] + w1, [h2] + w2;
    assert NoSpace(a) && NoSpace(b) && NoSpace(c) by {
      LetterWordNoSpace(h0, w0);
      LetterWordNoSpace(h1, w1);
      LetterWordNoSpace(h2, w2);
    }
    FunctionNameOfThree(a, b, c);
    LeadingLetterCase(h0, w0);
    LeadingLetterCase(h1, w1);
    LeadingLetterCase(h2, w2);
  }

  /** The letters of the example's function name, set in their cases. */
  lemma ManageSalesOrder(r: string)
    requires r == ([LowerChar('M')] + "anage") + ([UpperChar('s')] + "ales") + ([UpperChar('o')] + "rder")
    ensures r == "manageSalesOrder"
  {
  }

  /** `toFunctionName('Manage', 'sales order')` is `manageSalesOrder`. */
  lemma ExampleFunctionName(verb: string, obj: string)
    requires verb == "Manage" && obj == "sales order"
    ensures ToFunctionName(verb, obj) == "manageSalesOrder"
  {
    var w0, w1, w2 := "anage", "ales", "rder";
    assert verb == ['M'] + w0 && obj == (['s'] + w1) + " " + (['o'] + w2);
    FunctionNameOfLetters('M', w0, 's', w1, 'o', w2);
    ManageSalesOrder(ToFunctionName(verb, obj));
  }

  lemma {:induction false} RemoveSpacesShorter(s: string)
    ensures |RemoveSpaces(s)| <= |s|
  {
    if s != [] {
      RemoveSpacesShorter(s[1..]);
    }
  }

  lemma {:induction false} KeepAll(s: string, keep: char -> bool)
    requires forall i :: 0 <= i < |s| ==> keep(s[i])
    ensures Keep(s, keep) == s
  {
    if s != [] {
      KeepAll(s[1..], keep);
      assert s == [s[0]] + s[1..];
    }
  }

  /** On plain words (letters, digits, white space) the two camel-case
      builders agree. */
  lemma FunctionNameIsCamelCase(verb: string, obj: string)
    requires forall i :: 0 <= i < |verb| ==> CamelChar(verb[i])
    requires forall i :: 0 <= i < |obj| ==> CamelChar(obj[i])
    ensures ToFunctionName(verb, obj) == ToCamelCase(verb + " " + obj)
  {
    var s := verb + " " + obj;
    assert forall i :: 0 <= i < |s| ==> CamelChar(s[i]) by {
      forall i | 0 <= i < |s|
        ensures CamelChar(s[i])
      {
        if i < |verb| { assert s[i] == verb[i]; }
        else if i > |verb| { assert s[i] == obj[i - |verb| - 1]; }
      }
    }
    KeepAll(s, CamelChar);
  }
}
