/**
  Lab-6: the word count and alphanumeric character frequencies of a text file,
  saved only when the free disk space covers a rough size estimate.

  The file system is a parameter: a file is either absent (None) or holds a
  string, and the free space of the output directory is a number.
 */
module TextStats {
  import opened Common

  // ---------------------------------------------------------------------------
  // Errors

  /** The three exception classes of the program. */
  datatype TextError =
    | FileNotFound(fileName: string)
    | InvalidInputData(message: string)
    | DiskSpaceFull(message: string)

  const FileNotFoundPrefix: string := "File not found: "

  /** `str(e)`: the not-found error names the file; the other two show their message. */
  function Message(e: TextError): (m: string)
    ensures e.FileNotFound? ==>
      |FileNotFoundPrefix| <= |m| && m[..|FileNotFoundPrefix|] == FileNotFoundPrefix && m[|FileNotFoundPrefix|..] == e.fileName
    ensures !e.FileNotFound? ==> m == e.message
  {
    match e
    case FileNotFound(name) => FileNotFoundPrefix + name
    case InvalidInputData(message) => message
    case DiskSpaceFull(message) => message
  }

  const DiskFullMessage: string := "Insufficient disk space to save the file."

  // ---------------------------------------------------------------------------
  // Words

  /** A word of `str.split()`: non-empty and free of whitespace. */
  predicate IsWord(w: string) {
    |w| > 0 && forall i :: 0 <= i < |w| ==> !IsSpace(w[i])
  }

  /** Length of the run of non-whitespace characters at the front of `s`. */
  function WordLength(s: string): (k: nat)
    ensures k <= |s|
    ensures forall i :: 0 <= i < k ==> !IsSpace(s[i])
    ensures k < |s| ==> IsSpace(s[k])
  {
    if s == [] || IsSpace(s[0]) then 0 else 1 + WordLength(s[1..])
  }

  /** `str.split()` with no separator: the maximal runs of non-whitespace, in order. */
  function Split(s: string): (words: seq<string>)
    ensures forall i :: 0 <= i < |words| ==> IsWord(words[i])
    decreases |s|
  {
    var k := LeadingSpaces(s);
    if k == |s| then []
    else
      var rest := s[k..];
      var n := WordLength(rest);
      [rest[..n]] + Split(rest[n..])
  }

  /**
    `count_words`: the number of maximal runs of non-whitespace characters,
    at most one per character, and 0 exactly for empty or all-whitespace text.
   */
  function CountWords(text: string): (n: nat)
    ensures n == WordEnds(text)
    ensures n <= |text|
    ensures n == 0 <==> AllSpace(text)
  {
    SplitCountsWordEnds(text);
    WordEndsAtMostLength(text);
    SplitEmptyIffBlank(text);
    |Split(text)|
  }

  /**
    The number of positions of `s` at which a word ends: a non-whitespace
    character followed by whitespace or by the end of the text.
   */
  function WordEnds(s: string): nat {
    if s == [] then 0
    else (if !IsSpace(s[0]) && (|s| == 1 || IsSpace(s[1])) then 1 else 0) + WordEnds(s[1..])
  }

  lemma {:induction false} WordEndsAfterSpaces(s: string, k: nat)
    requires k <= |s| && forall i :: 0 <= i < k ==> IsSpace(s[i])
    ensures WordEnds(s) == WordEnds(s[k..])
  {
    if k > 0 {
      var rest := s[1..];
      forall i | 0 <= i < k - 1 ensures IsSpace(rest[i]) {
        assert rest[i] == s[i + 1];
      }
      WordEndsAfterSpaces(rest, k - 1);
      assert s[1..][k - 1..] == s[k..];
    }
  }

  lemma {:induction false} WordEndsOfWord(s: string, n: nat)
    requires 0 < n <= |s|
    requires forall i :: 0 <= i < n ==> !IsSpace(s[i])
    requires n == |s| || IsSpace(s[n])
    ensures WordEnds(s) == 1 + WordEnds(s[n..])
  {
    if n > 1 {
      WordEndsOfWord(s[1..], n - 1);
      assert s[1..][n - 1..] == s[n..];
    }
  }

  /** `str.split()` yields one word per maximal run of non-whitespace characters. */
  lemma {:induction false} SplitCountsWordEnds(s: string)
    ensures |Split(s)| == WordEnds(s)
    decreases |s|
  {
    var k := LeadingSpaces(s);
    WordEndsAfterSpaces(s, k);
    if k < |s| {
      var rest := s[k..];
      var n := WordLength(rest);
      WordEndsOfWord(rest, n);
      SplitCountsWordEnds(rest[n..]);
    }
  }

  /** Empty or all-whitespace text, and only such text, splits into no words. */
  lemma SplitEmptyIffBlank(s: string)
    ensures Split(s) == [] <==> AllSpace(s)
  {
    var k := LeadingSpaces(s);
    if k != |s| {
      assert !IsSpace(s[k]);
    }
  }

  lemma {:induction false} WordEndsAtMostLength(s: string)
    ensures WordEnds(s) <= |s|
  {
    if s != [] {
      WordEndsAtMostLength(s[1..]);
    }
  }

  // ---------------------------------------------------------------------------
  // Character frequencies

  /** The alphanumeric characters of `s`, in order. */
  function Alnums(s: string): (cs: string)
    ensures |cs| <= |s|
    ensures forall i :: 0 <= i < |cs| ==> IsAlnum(cs[i])
  {
    if s == [] then []
    else
      var c := s[|s| - 1];
      Alnums(s[..|s| - 1]) + (if IsAlnum(c) then [c] else [])
  }

  /**
    The dict `character_frequency` builds, as its key order and its contents:
    each character is counted under the key `frequency.get(char, 0) + 1`.
   */
  function FrequencyTable(s: string): (t: (seq<char>, map<char, nat>))
    ensures forall c :: c in t.1 <==> c in t.0
  {
    if s == [] then ([], map[])
    else
      var (chars, freq) := FrequencyTable(s[..|s| - 1]);
      var c := s[|s| - 1];
      if IsAlnum(c) then
        (if c in freq then chars else chars + [c], freq[c := (if c in freq then freq[c] else 0) + 1])
      else (chars, freq)
  }

  /** `chars` and `freq` are the keys, in first-seen order, and the counts of the alphanumerics of `text`. */
  ghost predicate FrequenciesOf(text: string, chars: seq<char>, freq: map<char, nat>) {
    && chars == Dedup(Alnums(text))
    && (forall c :: c in freq <==> c in chars)
    && (forall c :: c in freq ==> freq[c] == multiset(text)[c])
    && |freq| == |chars|
  }

  /** Counting one more character: an alphanumeric one is added to the table, any other is skipped. */
  lemma FrequencyStep(text: string, c: char, chars: seq<char>, freq: map<char, nat>,
                      chars': seq<char>, freq': map<char, nat>)
    requires FrequenciesOf(text, chars, freq)
    requires chars' == if IsAlnum(c) then (if c in freq then chars else chars + [c]) else chars
    requires freq' == if IsAlnum(c) then freq[c := (if c in freq then freq[c] else 0) + 1] else freq
    ensures FrequenciesOf(text + [c], chars', freq')
  {
    if IsAlnum(c) {
      FrequencyStepCounted(text, c, chars, freq, chars', freq');
    } else {
      FrequencyStepSkipped(text, c, chars, freq);
    }
  }

  lemma FrequencyStepCounted(text: string, c: char, chars: seq<char>, freq: map<char, nat>,
                             chars': seq<char>, freq': map<char, nat>)
    requires FrequenciesOf(text, chars, freq) && IsAlnum(c)
    requires chars' == if c in freq then chars else chars + [c]
    requires freq' == freq[c := (if c in freq then freq[c] else 0) + 1]
    ensures FrequenciesOf(text + [c], chars', freq')
  {
    AlnumsSnoc(text, c);
    DedupSnoc(Alnums(text), c);
    assert c in freq <==> c in Dedup(Alnums(text));
    if c !in freq {
      DedupHas(Alnums(text), c);
      AlnumsHas(text, c);
      assert c !in text;
    }
    CountStep(text, c, freq, freq');
    assert chars' == Dedup(Alnums(text + [c]));
    assert forall x :: x in freq' <==> x in chars';
    assert |freq'| == |chars'|;
  }

  lemma AlnumsSnoc(s: string, c: char)
    ensures Alnums(s + [c]) == Alnums(s) + (if IsAlnum(c) then [c] else [])
  {
    assert (s + [c])[..|s|] == s;
  }

  /** Adding one to the count of `c` keeps every count equal to the number of occurrences. */
  lemma CountStep(text: string, c: char, freq: map<char, nat>, freq': map<char, nat>)
    requires forall x :: x in freq ==> freq[x] == multiset(text)[x]
    requires c in freq || c !in text
    requires freq' == freq[c := (if c in freq then freq[c] else 0) + 1]
    ensures forall x :: x in freq' ==> freq'[x] == multiset(text + [c])[x]
  {
    assert multiset(text + [c]) == multiset(text) + multiset{c};
    forall x | x in freq'
      ensures freq'[x] == multiset(text + [c])[x]
    {
      if x != c {
        assert freq'[x] == freq[x];
      }
    }
  }

  lemma FrequencyStepSkipped(text: string, c: char, chars: seq<char>, freq: map<char, nat>)
    requires FrequenciesOf(text, chars, freq) && !IsAlnum(c)
    ensures FrequenciesOf(text + [c], chars, freq)
  {
    var t := text + [c];
    AlnumsSnoc(text, c);
    assert Alnums(t) == Alnums(text) + [] == Alnums(text);
    assert multiset(t) == multiset(text) + multiset{c};
    forall x | x in freq
      ensures freq[x] == multiset(t)[x]
    {
      AlnumsHas(text, x);
      DedupHas(Alnums(text), x);
    }
  }

  /** The alphanumerics of `s` are the characters of `s` that are alphanumeric. */
  lemma {:induction false} AlnumsHas(s: string, c: char)
    ensures c in Alnums(s) <==> c in s && IsAlnum(c)
  {
    if s != [] {
      var init := s[..|s| - 1];
      AlnumsHas(init, c);
      assert s == init + [s[|s| - 1]];
    }
  }

  /** The table holds each alphanumeric character of the text once, with its number of occurrences. */
  lemma {:induction false} FrequencyTableCorrect(s: string)
    ensures FrequenciesOf(s, FrequencyTable(s).0, FrequencyTable(s).1)
  {
    if s != [] {
      var init, c := s[..|s| - 1], s[|s| - 1];
      FrequencyTableCorrect(init);
      var (chars, freq) := FrequencyTable(init);
      var (chars', freq') := FrequencyTable(s);
      FrequencyStep(init, c, chars, freq, chars', freq');
      assert init + [c] == s;
    }
  }

  /** `character_frequency` */
  method CharacterFrequency(text: string) returns (chars: seq<char>, freq: map<char, nat>)
    ensures (chars, freq) == FrequencyTable(text)
    ensures chars == Dedup(Alnums(text))
    ensures forall c :: c in freq <==> IsAlnum(c) && c in text
    ensures forall c :: c in freq ==> freq[c] == multiset(text)[c]
    ensures |freq| == |chars|
  {
    chars, freq := [], map[];
    for i := 0 to |text|
      invariant (chars, freq) == FrequencyTable(text[..i])
    {
      assert text[..i + 1][..i] == text[..i];
      var c := text[i];
      if IsAlnum(c) {
        var n := if c in freq then freq[c] else 0;
        if c !in freq {
          chars := chars + [c];
        }
        freq := freq[c := n + 1];
      }
    }
    assert text[..|text|] == text;
    FrequencyTableCorrect(text);
    forall c ensures c in freq <==> IsAlnum(c) && c in text {
      DedupHas(Alnums(text), c);
      AlnumsHas(text, c);
    }
  }

  /** Sum of the counts of `chars` in `freq`. */
  function SumOver(chars: seq<char>, freq: map<char, nat>): nat
    requires forall i :: 0 <= i < |chars| ==> chars[i] in freq
  {
    if chars == [] then 0 else SumOver(chars[..|chars| - 1], freq) + freq[chars[|chars| - 1]]
  }

  lemma {:induction false} SumOverIsSumCounts(text: string, chars: seq<char>, freq: map<char, nat>)
    requires forall i :: 0 <= i < |chars| ==> chars[i] in freq && IsAlnum(chars[i])
    requires forall c :: c in freq ==> freq[c] == multiset(text)[c]
    ensures SumOver(chars, freq) == SumCounts(chars, Alnums(text))
  {
    if chars != [] {
      var c := chars[|chars| - 1];
      SumOverIsSumCounts(text, chars[..|chars| - 1], freq);
      AlnumsCount(text, c);
    }
  }

  lemma {:induction false} AlnumsCount(s: string, c: char)
    requires IsAlnum(c)
    ensures multiset(Alnums(s))[c] == multiset(s)[c]
  {
    if s != [] {
      var init, x := s[..|s| - 1], s[|s| - 1];
      AlnumsCount(init, c);
      assert s == init + [x];
    }
  }

  /** The frequencies add up to the number of alphanumeric characters of the text. */
  lemma FrequenciesSum(text: string, chars: seq<char>, freq: map<char, nat>)
    requires FrequenciesOf(text, chars, freq)
    ensures forall i :: 0 <= i < |chars| ==> chars[i] in freq
    ensures SumOver(chars, freq) == |Alnums(text)|
  {
    forall i | 0 <= i < |chars|
      ensures chars[i] in freq && IsAlnum(chars[i])
    {
      DedupHas(Alnums(text), chars[i]);
      AlnumsHas(text, chars[i]);
    }
    SumOverIsSumCounts(text, chars, freq);
    SumCountsDedup(Alnums(text));
  }

  // ---------------------------------------------------------------------------
  // Saving

  /** `estimate_output_size`: ten bytes per word and ten per frequency entry. */
  function EstimateOutputSize(wordCount: int, entries: int): (size: int)
    ensures size % 10 == 0 && size / 10 == wordCount + entries
    ensures 0 <= wordCount && 0 <= entries ==> 0 <= size
  {
    wordCount * 10 + entries * 10
  }

  /**
    The estimate for a text is between 0 and twenty bytes per character, and it
    is 0 exactly for empty or all-whitespace text.
   */
  lemma EstimateOfText(text: string, chars: seq<char>, freq: map<char, nat>)
    requires FrequenciesOf(text, chars, freq)
    ensures 0 <= EstimateOutputSize(CountWords(text), |freq|) <= 20 * |text|
    ensures EstimateOutputSize(CountWords(text), |freq|) == 0 <==> AllSpace(text)
  {
    if chars != [] {
      var c := chars[0];
      DedupHas(Alnums(text), c);
      AlnumsHas(text, c);
      var i :| 0 <= i < |text| && text[i] == c;
      assert !IsSpace(text[i]);
    }
  }

  const WordsLabel: string := "Number of words: "
  const FrequenciesLabel: string := "Character frequencies:"

  /** One `char: freq` line. */
  function FrequencyLine(c: char, n: nat): string {
    [c] + ": " + ShowInt(n)
  }

  /** One line per key, in key order. */
  function FrequencyLines(chars: seq<char>, freq: map<char, nat>): (lines: seq<string>)
    requires forall i :: 0 <= i < |chars| ==> chars[i] in freq
    ensures |lines| == |chars|
    ensures forall i :: 0 <= i < |chars| ==> lines[i] == FrequencyLine(chars[i], freq[chars[i]])
  {
    seq(|chars|, i requires 0 <= i < |chars| => FrequencyLine(chars[i], freq[chars[i]]))
  }

  /** The lines of the output file, each written with a trailing newline. */
  function ReportLines(wordCount: nat, chars: seq<char>, freq: map<char, nat>): seq<string>
    requires forall i :: 0 <= i < |chars| ==> chars[i] in freq
  {
    [WordsLabel + ShowInt(wordCount), FrequenciesLabel] + FrequencyLines(chars, freq)
  }

  /** What `save_results_to_file` does: write the report, or log the disk-full error it catches. */
  datatype Saved = Written(lines: seq<string>) | NotWritten(logged: string)

  function SaveResults(wordCount: nat, chars: seq<char>, freq: map<char, nat>, available: int): (saved: Saved)
    requires forall i :: 0 <= i < |chars| ==> chars[i] in freq
    ensures saved.NotWritten? <==> available < EstimateOutputSize(wordCount, |freq|)
    ensures saved.NotWritten? ==> saved.logged == Message(DiskSpaceFull(DiskFullMessage))
    ensures saved.Written? ==> saved.lines == ReportLines(wordCount, chars, freq)
  {
    if available < EstimateOutputSize(wordCount, |freq|) then NotWritten(Message(DiskSpaceFull(DiskFullMessage)))
    else Written(ReportLines(wordCount, chars, freq))
  }

  /** Reads the word count back from the first line of the report. */
  function ReadWordsLine(line: string): Option<int> {
    if |WordsLabel| <= |line| && line[..|WordsLabel|] == WordsLabel then ParseInt(line[|WordsLabel|..]) else None
  }

  /** Reads a character and its count back from a `char: freq` line. */
  function ReadFrequencyLine(line: string): Option<(char, int)> {
    if |line| > 3 && line[1..3] == ": " then
      var n := ParseInt(line[3..]);
      if n.Some? then Some((line[0], n.value)) else None
    else None
  }

  lemma HeaderReadBack(wordCount: nat)
    ensures ReadWordsLine(WordsLabel + ShowInt(wordCount)) == Some(wordCount)
  {
    var line := WordsLabel + ShowInt(wordCount);
    assert line[..|WordsLabel|] == WordsLabel;
    assert line[|WordsLabel|..] == ShowInt(wordCount);
    IntRoundTrip(wordCount);
  }

  lemma FrequencyLineReadBack(c: char, n: nat)
    ensures ReadFrequencyLine(FrequencyLine(c, n)) == Some((c, n as int))
  {
    var line := FrequencyLine(c, n);
    assert line[1..3] == ": ";
    assert line[3..] == ShowInt(n);
    IntRoundTrip(n);
  }

  /**
    Reading the saved report back gives the word count, then the heading, then
    one frequency line per key in key order.
   */
  lemma ReportReadBack(wordCount: nat, chars: seq<char>, freq: map<char, nat>)
    requires forall i :: 0 <= i < |chars| ==> chars[i] in freq
    ensures var lines := ReportLines(wordCount, chars, freq);
      && |lines| == 2 + |chars|
      && ReadWordsLine(lines[0]) == Some(wordCount)
      && lines[1] == FrequenciesLabel
      && lines[2..] == FrequencyLines(chars, freq)
  {
    var header := WordsLabel + ShowInt(wordCount);
    var body := FrequencyLines(chars, freq);
    var lines := ReportLines(wordCount, chars, freq);
    assert lines == [header, FrequenciesLabel] + body;
    assert |lines| == 2 + |chars| && lines[0] == header && lines[1] == FrequenciesLabel;
    HeaderReadBack(wordCount);
  }

  /** Each frequency line reads back as its character and that character's count. */
  lemma FrequencyLinesReadBack(chars: seq<char>, freq: map<char, nat>)
    requires forall i :: 0 <= i < |chars| ==> chars[i] in freq
    ensures forall i :: 0 <= i < |chars| ==>
      ReadFrequencyLine(FrequencyLines(chars, freq)[i]) == Some((chars[i], freq[chars[i]] as int))
  {
    forall i | 0 <= i < |chars|
      ensures ReadFrequencyLine(FrequencyLines(chars, freq)[i]) == Some((chars[i], freq[chars[i]] as int))
    {
      FrequencyLineReadBack(chars[i], freq[chars[i]]);
    }
  }

  // ---------------------------------------------------------------------------
  // The whole run

  /**
    `process_text_file`: `stored` is the file's contents, None when it does not
    exist; `available` is the free space where the report goes. Returns what
    is logged and the report written, if any.
   */
  method ProcessTextFile(path: string, stored: Option<string>, available: int)
    returns (logged: seq<string>, written: Option<seq<string>>)
    ensures stored.None? ==> logged == [Message(FileNotFound(path))] && written.None?
    ensures stored == Some([]) ==> logged == [] && written.None?
    ensures stored.Some? && stored.value != [] ==>
      var text := stored.value;
      var (chars, freq) := FrequencyTable(text);
      && (written.Some? <==> available >= EstimateOutputSize(CountWords(text), |freq|))
      && (written.Some? ==> logged == [] && written.value == ReportLines(CountWords(text), chars, freq))
      && (written.None? ==> logged == [DiskFullMessage])
  {
    if stored.None? {
      return [Message(FileNotFound(path))], None;
    }
    var text := stored.value;
    if text == [] {
      return [], None;
    }
    var wordCount := CountWords(text);
    var chars, freq := CharacterFrequency(text);
    FrequencyTableCorrect(text);
    FrequenciesSum(text, chars, freq);
    var saved := SaveResults(wordCount, chars, freq, available);
    if saved.Written? {
      logged, written := [], Some(saved.lines);
    } else {
      logged, written := [saved.logged], None;
    }
  }
}
