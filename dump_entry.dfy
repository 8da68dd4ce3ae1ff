/**
 * The dump entry page: the parser that turns dump text into key/value pairs
 * and a count of recognised lines, and the save action that validates the
 * form and appends a dump to the store.
 */
module DumpEntry {
  import opened Wrappers
  import opened JsString
  import opened JsArray
  import opened AppStore

  /** Characters that start a comment: `/[#;]/`. */
  predicate IsCommentMarker(c: char) {
    c == '#' || c == ';'
  }

  /** Characters that separate tokens: `/[\s=,:]/`. */
  predicate IsSeparator(c: char) {
    IsWhitespace(c) || c == '=' || c == ',' || c == ':'
  }

  predicate HasSeparator(s: string) {
    exists i :: 0 <= i < |s| && IsSeparator(s[i])
  }

  predicate NoSeparator(s: string) {
    forall i :: 0 <= i < |s| ==> !IsSeparator(s[i])
  }

  /** `line.split(/[#;]/)[0]`: the text before the first comment marker. */
  function StripComment(line: string): (r: string)
    ensures |r| <= |line| && r == line[..|r|]
    ensures forall i :: 0 <= i < |r| ==> !IsCommentMarker(r[i])
    ensures |r| < |line| ==> IsCommentMarker(line[|r|])
  {
    if line == [] || IsCommentMarker(line[0]) then []
    else
      var r := [line[0]] + StripComment(line[1..]);
      assert line == [line[0]] + line[1..];
      r
  }

  /** Whatever follows a comment marker never reaches the parser. */
  lemma {:induction false} CommentTailIgnored(before: string, marker: char, after: string)
    requires IsCommentMarker(marker)
    ensures StripComment(before + [marker] + after) == StripComment(before)
  {
    if before != [] {
      assert (before + [marker] + after)[1..] == before[1..] + [marker] + after;
      CommentTailIgnored(before[1..], marker, after);
    }
  }

  /** Text without comment markers is kept whole. */
  lemma {:induction false} StripCommentNoMarker(line: string)
    requires forall i :: 0 <= i < |line| ==> !IsCommentMarker(line[i])
    ensures StripComment(line) == line
  {
    if line != [] {
      StripCommentNoMarker(line[1..]);
      assert line == [line[0]] + line[1..];
    }
  }

  /** `line.split(/[#;]/)[0].trim()`. */
  function CleanLine(line: string): (r: string)
    ensures forall i :: 0 <= i < |r| ==> !IsCommentMarker(r[i])
    ensures r == [] || (!IsWhitespace(r[0]) && !IsWhitespace(r[|r| - 1]))
    ensures r == [] <==> AllWhitespace(StripComment(line))
  {
    TrimLacksMarker(StripComment(line));
    Trim(StripComment(line))
  }

  /** Trimming a text free of comment markers leaves a text free of them. */
  lemma TrimLacksMarker(s: string)
    requires forall i :: 0 <= i < |s| ==> !IsCommentMarker(s[i])
    ensures forall i :: 0 <= i < |Trim(s)| ==> !IsCommentMarker(Trim(s)[i])
  {
    var r := Trim(s);
    var k := |s| - |TrimStart(s)|;
    forall i | 0 <= i < |r| ensures !IsCommentMarker(r[i]) {
      assert r[i] == s[k..][i];
    }
  }

  /** Drops a leading run of separators. */
  function SkipSeparators(s: string): (r: string)
    ensures |r| <= |s| && r == s[|s| - |r|..]
    ensures forall i :: 0 <= i < |s| - |r| ==> IsSeparator(s[i])
    ensures r == [] || !IsSeparator(r[0])
  {
    if s != [] && IsSeparator(s[0]) then SkipSeparators(s[1..]) else s
  }

  /** `s.split(/[\s=,:]+/)`: the stretches between maximal runs of
      separators. A separator at the very start or end yields an empty first
      or last token. */
  function Tokens(s: string): (parts: seq<string>)
    ensures |parts| >= 1
    ensures forall i :: 0 <= i < |parts| ==> NoSeparator(parts[i])
    ensures |parts| >= 2 <==> HasSeparator(s)
    ensures |parts[0]| <= |s| && parts[0] == s[..|parts[0]|]
    ensures |parts[0]| < |s| ==> IsSeparator(s[|parts[0]|])
    decreases |s|
  {
    if s == [] then [[]]
    else if IsSeparator(s[0]) then [[]] + Tokens(SkipSeparators(s))
    else
      var rest := Tokens(s[1..]);
      TokensGrowFirst(s, rest);
      [[s[0]] + rest[0]] + rest[1..]
  }

  /** A non-separator in front of the text joins the first token. */
  lemma TokensGrowFirst(s: string, rest: seq<string>)
    requires s != [] && !IsSeparator(s[0])
    requires |rest| >= 1
    requires forall i :: 0 <= i < |rest| ==> NoSeparator(rest[i])
    requires |rest| >= 2 <==> HasSeparator(s[1..])
    requires |rest[0]| <= |s[1..]| && rest[0] == s[1..][..|rest[0]|]
    requires |rest[0]| < |s[1..]| ==> IsSeparator(s[1..][|rest[0]|])
    ensures var parts := [[s[0]] + rest[0]] + rest[1..];
      && (forall i :: 0 <= i < |parts| ==> NoSeparator(parts[i]))
      && (|parts| >= 2 <==> HasSeparator(s))
      && |parts[0]| <= |s| && parts[0] == s[..|parts[0]|]
      && (|parts[0]| < |s| ==> IsSeparator(s[|parts[0]|]))
  {
    var parts := [[s[0]] + rest[0]] + rest[1..];
    assert HasSeparator(s[1..]) <==> HasSeparator(s) by {
      if HasSeparator(s) {
        var i :| 0 <= i < |s| && IsSeparator(s[i]);
        assert s[1..][i - 1] == s[i];
      }
      if HasSeparator(s[1..]) {
        var i :| 0 <= i < |s[1..]| && IsSeparator(s[1..][i]);
        assert s[i + 1] == s[1..][i];
      }
    }
    forall i | 0 <= i < |parts| ensures NoSeparator(parts[i]) {
      if i > 0 {
        assert parts[i] == rest[i];
      }
    }
    assert parts[0] == s[..|parts[0]|];
  }

  /** After the first token and the run of separators behind it, the rest of
      the tokens are those of the remaining text: so the second token is the
      stretch that follows the first run of separators. */
  lemma {:induction false} TokensAfterFirst(s: string)
    requires |Tokens(s)[0]| < |s|
    ensures Tokens(s)[1..] == Tokens(SkipSeparators(s[|Tokens(s)[0]|..]))
    decreases |s|
  {
    if !IsSeparator(s[0]) {
      var rest := Tokens(s[1..]);
      assert Tokens(s)[0] == [s[0]] + rest[0];
      TokensAfterFirst(s[1..]);
      assert s[1..][|rest[0]|..] == s[|Tokens(s)[0]|..];
    }
  }

  /** Text without separators is a single token. */
  lemma {:induction false} TokensOfOneWord(s: string)
    requires NoSeparator(s)
    ensures Tokens(s) == [s]
  {
    if s != [] {
      TokensOfOneWord(s[1..]);
      assert s == [s[0]] + s[1..];
    }
  }

  /** A run of separators in front of a word is skipped whole. */
  lemma {:induction false} SkipRun(run: string, word: string)
    requires forall i :: 0 <= i < |run| ==> IsSeparator(run[i])
    requires word == [] || !IsSeparator(word[0])
    ensures SkipSeparators(run + word) == word
  {
    if run != [] {
      assert (run + word)[1..] == run[1..] + word;
      SkipRun(run[1..], word);
    } else {
      assert run + word == word;
    }
  }

  /** `key`, a run of separators, `value` splits into exactly `[key, value]`;
      either may be empty, which is how a line that starts or ends with `=`,
      `,` or `:` yields an empty token. */
  lemma {:induction false} TokensOfPair(key: string, run: string, value: string)
    requires NoSeparator(key) && NoSeparator(value)
    requires run != [] && forall i :: 0 <= i < |run| ==> IsSeparator(run[i])
    ensures Tokens(key + run + value) == [key, value]
  {
    var s := key + run + value;
    if key == [] {
      assert s == run + value;
      SkipRun(run, value);
      TokensOfOneWord(value);
      assert Tokens(s) == [[]] + Tokens(SkipSeparators(s));
    } else {
      assert s[0] == key[0] && s[1..] == key[1..] + run + value;
      TokensOfPair(key[1..], run, value);
      assert [key[0]] + key[1..] == key;
    }
  }

  /** Concatenation of a list of strings. */
  function Concat(parts: seq<string>): string {
    if parts == [] then [] else parts[0] + Concat(parts[1..])
  }

  /** The text with every separator deleted. */
  function WithoutSeparators(s: string): string {
    if s == [] then [] else (if IsSeparator(s[0]) then [] else [s[0]]) + WithoutSeparators(s[1..])
  }

  lemma {:induction false} SkipLosesOnlySeparators(s: string)
    ensures WithoutSeparators(SkipSeparators(s)) == WithoutSeparators(s)
  {
    if s != [] && IsSeparator(s[0]) {
      SkipLosesOnlySeparators(s[1..]);
    }
  }

  /** Splitting loses the separators and nothing else. */
  lemma {:induction false} TokensLoseOnlySeparators(s: string)
    ensures Concat(Tokens(s)) == WithoutSeparators(s)
    decreases |s|
  {
    if s == [] {
    } else if IsSeparator(s[0]) {
      TokensLoseOnlySeparators(SkipSeparators(s));
      SkipLosesOnlySeparators(s);
      ConcatEmptyFirst(Tokens(SkipSeparators(s)));
    } else {
      TokensLoseOnlySeparators(s[1..]);
      ConcatExtendFirst(s[0], Tokens(s[1..]));
    }
  }

  /** An empty first piece adds nothing. */
  lemma ConcatEmptyFirst(parts: seq<string>)
    ensures Concat([[]] + parts) == Concat(parts)
  {
    assert ([[]] + parts)[1..] == parts;
  }

  /** A character in front of the first piece lands in front of the whole. */
  lemma ConcatExtendFirst(c: char, parts: seq<string>)
    requires |parts| >= 1
    ensures Concat([[c] + parts[0]] + parts[1..]) == [c] + Concat(parts)
  {
    var q := [[c] + parts[0]] + parts[1..];
    assert q[1..] == parts[1..];
  }

  /** One recognised `key value` line. */
  datatype Entry = Entry(key: string, value: string)

  /** What a line contributes: the first two tokens of its cleaned text, when
      there are at least two. */
  function RecognizeLine(line: string): (e: Option<Entry>)
    ensures e.Some? <==> HasSeparator(CleanLine(line))
    ensures e.Some? ==> NoSeparator(e.value.key) && NoSeparator(e.value.value)
  {
    var cleanLine := CleanLine(line);
    if cleanLine == [] then None
    else
      var parts := Tokens(cleanLine);
      if |parts| >= 2 then Some(Entry(parts[0], parts[1])) else None
  }

  /** The key of a recognised line is the text before the first separator of
      the cleaned line; the value is the separator-free stretch that follows
      the first run of separators. Further tokens play no part. */
  lemma RecognizedKeyAndValue(line: string)
    requires RecognizeLine(line).Some?
    ensures var c := CleanLine(line); var e := RecognizeLine(line).value;
      && |e.key| < |c| && c[..|e.key|] == e.key && IsSeparator(c[|e.key|])
      && var rest := SkipSeparators(c[|e.key|..]);
         |e.value| <= |rest| && rest[..|e.value|] == e.value
         && (|e.value| < |rest| ==> IsSeparator(rest[|e.value|]))
  {
    var c := CleanLine(line);
    var parts := Tokens(c);
    assert RecognizeLine(line).value == Entry(parts[0], parts[1]);
    TokensFirstBound(c);
    TokensAfterFirst(c);
    var rest := SkipSeparators(c[|parts[0]|..]);
    assert parts[1] == Tokens(rest)[0];
  }

  /** When there is a second token, the first stops short of the end of the text. */
  lemma TokensFirstBound(s: string)
    requires |Tokens(s)| >= 2
    ensures |Tokens(s)[0]| < |s|
  {
  }

  /** The entry as a list of at most one element. */
  function OptionEntries(o: Option<Entry>): (es: seq<Entry>)
    ensures |es| <= 1
  {
    match o
    case Some(e) => [e]
    case None => []
  }

  /** What one line contributes: its entry, or nothing. */
  function LineEntries(line: string): (es: seq<Entry>)
    ensures |es| <= 1
  {
    OptionEntries(RecognizeLine(line))
  }

  /** A line without a separator is ignored. */
  lemma OneWordLineIgnored(line: string)
    requires NoSeparator(line)
    ensures RecognizeLine(line) == None
  {
    var stripped := StripComment(line);
    var c := CleanLine(line);
    var k := |stripped| - |TrimStart(stripped)|;
    forall i | 0 <= i < |c| ensures !IsSeparator(c[i]) {
      assert c[i] == stripped[k + i] == line[k + i];
    }
  }

  /** A line `key<separators>value`, optionally followed by white space and a
      comment, gives the entry `key` -> `value`. */
  lemma KeyValueLine(key: string, run: string, value: string, pad: string, comment: string)
    requires NoSeparator(key) && NoSeparator(value)
    requires run != [] && forall i :: 0 <= i < |run| ==> IsSeparator(run[i])
    requires var l := key + run + value;
      (forall i :: 0 <= i < |l| ==> !IsCommentMarker(l[i])) && !IsWhitespace(l[0]) && !IsWhitespace(l[|l| - 1])
    requires AllWhitespace(pad)
    requires comment == [] || IsCommentMarker(comment[0])
    ensures RecognizeLine(key + run + value + pad + comment) == Some(Entry(key, value))
  {
    var l := key + run + value;
    var line := key + run + value + pad + comment;
    assert StripComment(line) == l + pad by {
      assert forall i :: 0 <= i < |l + pad| ==> !IsCommentMarker((l + pad)[i]) by {
        forall i | 0 <= i < |l + pad| ensures !IsCommentMarker((l + pad)[i]) {
          if i >= |l| { assert (l + pad)[i] == pad[i - |l|]; }
        }
      }
      StripCommentNoMarker(l + pad);
      if comment != [] {
        CommentTailIgnored(l + pad, comment[0], comment[1..]);
        assert line == (l + pad) + [comment[0]] + comment[1..];
      } else {
        assert line == l + pad;
      }
    }
    assert CleanLine(line) == l by {
      TrimPadded(l, pad);
    }
    TokensOfPair(key, run, value);
  }

  /** The entries of the recognised lines, in line order. */
  function RecognizedEntries(lines: seq<string>): seq<Entry> {
    FlatMap(lines, LineEntries)
  }

  /** The dictionary the entries build when a later entry overwrites an earlier one with the same key. */
  function EntryMap(es: seq<Entry>): (m: map<string, string>)
    ensures forall e | e in es :: e.key in m
    ensures forall k | k in m :: exists e | e in es :: e.key == k
  {
    if es == [] then map[]
    else
      var init := es[..|es| - 1];
      assert forall e | e in init :: e in es;
      assert forall e | e in es :: e in init || e == es[|es| - 1];
      EntryMap(init)[es[|es| - 1].key := es[|es| - 1].value]
  }

  /** A further entry sets its key over whatever the earlier ones built. */
  lemma EntryMapAppend(es: seq<Entry>, e: Entry)
    ensures EntryMap(es + [e]) == EntryMap(es)[e.key := e.value]
  {
    assert (es + [e])[..|es|] == es;
  }

  /** The last entry with a given key decides its value. */
  lemma {:induction false} EntryMapLastWins(es: seq<Entry>, i: nat)
    requires i < |es|
    requires forall j :: i < j < |es| ==> es[j].key != es[i].key
    ensures EntryMap(es)[es[i].key] == es[i].value
  {
    if i < |es| - 1 {
      var init := es[..|es| - 1];
      EntryMapLastWins(init, i);
    }
  }

  /** There are no more keys than entries. */
  lemma {:induction false} EntryMapSize(es: seq<Entry>)
    ensures |EntryMap(es)| <= |es|
  {
    if es != [] {
      var init := es[..|es| - 1];
      EntryMapSize(init);
      var m := EntryMap(init);
      var k := es[|es| - 1].key;
      assert EntryMap(es).Keys == m.Keys + {k};
    }
  }

  /** What `parseDump` returns: the dictionary and the number of recognised lines. */
  datatype ParseResult = ParseResult(data: map<string, string>, count: nat)

  /** The result `parseDump` computes, stated line by line. The count is at
      least the number of distinct keys, and a positive count means at least
      one key was stored. */
  function Parse(content: string): (r: ParseResult)
    ensures |r.data| <= r.count
    ensures r.count > 0 ==> |r.data| > 0
  {
    var es := RecognizedEntries(Split(content, '\n'));
    EntryMapSize(es);
    assert es != [] ==> es[0] in es && es[0].key in EntryMap(es);
    ParseResult(EntryMap(es), |es|)
  }

  /** `parseDump(content)`. */
  method ParseDump(content: string) returns (result: ParseResult)
    ensures result == Parse(content)
  {
    var lines := Split(content, '\n');
    var data: map<string, string> := map[];
    var parseCount: nat := 0;
    for i := 0 to |lines|
      invariant data == EntryMap(RecognizedEntries(lines[..i]))
      invariant parseCount == |RecognizedEntries(lines[..i])|
    {
      RecognizedPrefixStep(lines, i);
      EntriesStep(RecognizedEntries(lines[..i]), RecognizeLine(lines[i]));
      var cleanLine := CleanLine(lines[i]);
      if cleanLine != [] {
        var parts := Tokens(cleanLine);
        if |parts| >= 2 {
          var key := parts[0];
          var value := parts[1];
          assert RecognizeLine(lines[i]) == Some(Entry(key, value));
          data := data[key := value];
          parseCount := parseCount + 1;
        } else {
          assert RecognizeLine(lines[i]) == None;
        }
      } else {
        assert RecognizeLine(lines[i]) == None;
      }
    }
    assert lines[..|lines|] == lines;
    result := ParseResult(data, parseCount);
  }

  /** The entries of the first `i + 1` lines extend those of the first `i`. */
  lemma RecognizedPrefixStep(lines: seq<string>, i: nat)
    requires i < |lines|
    ensures RecognizedEntries(lines[..i + 1]) == RecognizedEntries(lines[..i]) + LineEntries(lines[i])
  {
    assert lines[..i + 1] == lines[..i] + [lines[i]];
    FlatMapConcat(lines[..i], [lines[i]], LineEntries);
    FlatMapSingle(lines[i], LineEntries);
  }

  /** What one more line does to the dictionary and the count. */
  lemma EntriesStep(es: seq<Entry>, o: Option<Entry>)
    ensures match o
      case None => EntryMap(es + OptionEntries(o)) == EntryMap(es) && |es + OptionEntries(o)| == |es|
      case Some(e) =>
        EntryMap(es + OptionEntries(o)) == EntryMap(es)[e.key := e.value] && |es + OptionEntries(o)| == |es| + 1
  {
    match o
    case None =>
      assert es + [] == es;
    case Some(e) =>
      EntryMapAppend(es, e);
  }

  /** One more line changes the result exactly as that line alone says: an
      unrecognised line changes nothing, a recognised one sets its key (over
      any earlier value) and adds one to the count. */
  lemma ParseAppendLine(content: string, line: string)
    requires '\n' !in line
    ensures var before := Parse(content); var after := Parse(content + ['\n'] + line);
      match RecognizeLine(line)
      case None => after == before
      case Some(e) => after.data == before.data[e.key := e.value] && after.count == before.count + 1
  {
    SplitAround(content, '\n', line);
    SplitNoSeparator(line, '\n');
    var lines := Split(content, '\n');
    FlatMapConcat(lines, [line], LineEntries);
    RecognizedSingle(line);
    EntriesStep(RecognizedEntries(lines), RecognizeLine(line));
  }

  /** A key that was parsed holds the value of the last line that set it. */
  lemma ParseLastLineWins(content: string, i: nat)
    requires var es := RecognizedEntries(Split(content, '\n'));
      i < |es| && forall j :: i < j < |es| ==> es[j].key != es[i].key
    ensures var e := RecognizedEntries(Split(content, '\n'))[i];
      e.key in Parse(content).data && Parse(content).data[e.key] == e.value
  {
    EntryMapLastWins(RecognizedEntries(Split(content, '\n')), i);
  }

  /** A list of lines none of which is recognised contributes nothing. */
  lemma {:induction false} NothingRecognized(lines: seq<string>)
    requires forall i :: 0 <= i < |lines| ==> RecognizeLine(lines[i]).None?
    ensures RecognizedEntries(lines) == []
  {
    if lines != [] {
      NothingRecognized(lines[..|lines| - 1]);
    }
  }

  /** Text that is white space only has no recognised line. */
  lemma BlankContentHasNoEntries(content: string)
    requires AllWhitespace(content)
    ensures Parse(content).count == 0
  {
    var lines := Split(content, '\n');
    SplitPiecesFromInput(content, '\n');
    forall i | 0 <= i < |lines| ensures RecognizeLine(lines[i]).None? {
      var stripped := StripComment(lines[i]);
      forall k | 0 <= k < |stripped| ensures IsWhitespace(stripped[k]) {
        assert stripped[k] == lines[i][k];
        assert lines[i][k] in content;
        var j :| 0 <= j < |content| && content[j] == lines[i][k];
      }
    }
    NothingRecognized(lines);
  }

  /** The entries of a single line are that line's own. */
  lemma RecognizedSingle(line: string)
    ensures RecognizedEntries([line]) == LineEntries(line)
  {
    FlatMapSingle(line, LineEntries);
  }

  /** A dump of one line holds that line's entry, if it has one. */
  lemma ParseOneLine(line: string)
    requires '\n' !in line
    ensures Parse(line) == match RecognizeLine(line)
      case None => ParseResult(map[], 0)
      case Some(e) => ParseResult(map[e.key := e.value], 1)
  {
    SplitNoSeparator(line, '\n');
    RecognizedSingle(line);
    EntriesStep([], RecognizeLine(line));
    assert [] + LineEntries(line) == LineEntries(line);
  }

  /** A dump made of one line `key<separators>value`, optionally followed by
      white space and a comment, holds exactly the entry `key` -> `value`. */
  lemma ParseKeyValueLine(key: string, run: string, value: string, pad: string, comment: string)
    requires NoSeparator(key) && NoSeparator(value)
    requires run != [] && forall i :: 0 <= i < |run| ==> IsSeparator(run[i])
    requires var l := key + run + value;
      (forall i :: 0 <= i < |l| ==> !IsCommentMarker(l[i])) && !IsWhitespace(l[0]) && !IsWhitespace(l[|l| - 1])
    requires AllWhitespace(pad)
    requires comment == [] || IsCommentMarker(comment[0])
    requires '\n' !in key + run + value + pad + comment
    ensures Parse(key + run + value + pad + comment) == ParseResult(map[key := value], 1)
  {
    KeyValueLine(key, run, value, pad, comment);
    ParseOneLine(key + run + value + pad + comment);
  }

  /** A leading line without a separator (such as `onlyonetoken`) is dropped
      and not counted: the dump parses as if it were not there. */
  lemma ParseDropsOneWordLine(word: string, rest: string)
    requires NoSeparator(word)
    ensures Parse(word + ['\n'] + rest) == Parse(rest)
  {
    var lines := Split(rest, '\n');
    assert Split(word + ['\n'] + rest, '\n') == [word] + lines by {
      assert '\n' !in word by {
        assert IsSeparator('\n');
      }
      SplitAround(word, '\n', rest);
      SplitNoSeparator(word, '\n');
    }
    OneWordLineIgnored(word);
    IgnoredLineFirst(word, lines);
  }

  /** A leading line that contributes nothing leaves the entries of the rest. */
  lemma IgnoredLineFirst(line: string, lines: seq<string>)
    requires RecognizeLine(line) == None
    ensures RecognizedEntries([line] + lines) == RecognizedEntries(lines)
  {
    FlatMapConcat([line], lines, LineEntries);
    RecognizedSingle(line);
    assert [] + RecognizedEntries(lines) == RecognizedEntries(lines);
  }

  /** The outcome of the save checks. */
  datatype SaveOutcome = Rejected(message: string) | Accepted(data: map<string, string>)

  const NameRequired := "Name required."
  const ContentRequired := "Content required."
  const NoValidRegisters := "No valid registers found."

  /** The three guards of `handleSave`, in order: name, content, count. The
      content guard only picks the message: blank content never parses to a
      register, so a dump is accepted exactly when the name is not blank and the
      text has a recognised line, and an accepted dump is never empty. */
  function SaveCheck(name: string, content: string): (o: SaveOutcome)
    ensures o.Accepted? <==> Trim(name) != [] && Parse(content).count > 0
    ensures o.Accepted? ==> o.data == Parse(content).data && |o.data| > 0
    ensures Trim(name) == [] ==> o == Rejected(NameRequired)
    ensures Trim(name) != [] && Trim(content) == [] ==> o == Rejected(ContentRequired)
    ensures o.Rejected? && Trim(name) != [] && Trim(content) != [] ==> o == Rejected(NoValidRegisters)
  {
    if Trim(name) == [] then Rejected(NameRequired)
    else if Trim(content) == [] then
      BlankContentHasNoEntries(content);
      Rejected(ContentRequired)
    else
      var parsed := Parse(content);
      if parsed.count == 0 then Rejected(NoValidRegisters) else Accepted(parsed.data)
  }

  /** The page's form state and the store it saves into. */
  class DumpEntryPage {
    const store: Store
    var dumpName: string
    var dumpContent: string
    var error: string

    constructor (store: Store)
      ensures this.store == store
      ensures dumpName == [] && dumpContent == [] && error == []
    {
      this.store := store;
      dumpName := [];
      dumpContent := [];
      error := [];
    }

    /** `handleSave`, with the id and the timestamp `Date.now()` would give passed in. */
    method HandleSave(id: string, timestamp: int)
      modifies this, store
      ensures store.registerDefinitions == old(store.registerDefinitions)
      ensures var outcome := SaveCheck(old(dumpName), old(dumpContent));
        && (outcome.Rejected? ==>
          && error == outcome.message
          && dumpName == old(dumpName) && dumpContent == old(dumpContent)
          && store.dumps == old(store.dumps))
        && (outcome.Accepted? ==>
          && error == []
          && dumpName == [] && dumpContent == []
          && store.dumps == old(store.dumps) + [Dump(id, old(dumpName), timestamp, old(dumpContent), outcome.data)])
    {
      var outcome := CheckForm(dumpName, dumpContent);
      Commit(outcome, id, timestamp);
    }

    /** The state change `handleSave` makes once its guards have decided:
        a rejection only shows its message; an acceptance stores the dump
        and empties the form. */
    method Commit(outcome: SaveOutcome, id: string, timestamp: int)
      modifies this, store
      ensures store.registerDefinitions == old(store.registerDefinitions)
      ensures outcome.Rejected? ==>
        && error == outcome.message
        && dumpName == old(dumpName) && dumpContent == old(dumpContent)
        && store.dumps == old(store.dumps)
      ensures outcome.Accepted? ==>
        && error == []
        && dumpName == [] && dumpContent == []
        && store.dumps == old(store.dumps) + [Dump(id, old(dumpName), timestamp, old(dumpContent), outcome.data)]
    {
      if outcome.Rejected? {
        error := outcome.message;
      } else {
        error := [];
        var newDump := Dump(id, dumpName, timestamp, dumpContent, outcome.data);
        store.AddDump(newDump);
        dumpName := [];
        dumpContent := [];
      }
    }
  }

  /** The guards of `handleSave`, run in order on the form's name and
      content; the last one parses the content. */
  method CheckForm(name: string, content: string) returns (outcome: SaveOutcome)
    ensures outcome == SaveCheck(name, content)
  {
    if Trim(name) == [] {
      return Rejected(NameRequired);
    }
    if Trim(content) == [] {
      return Rejected(ContentRequired);
    }
    var parsed := ParseDump(content);
    if parsed.count == 0 {
      return Rejected(NoValidRegisters);
    }
    return Accepted(parsed.data);
  }
}
