/** The external scanner for C++ raw strings, R"d(content)d". Models scanner.c. */
module RawStrings {

  const MAX_DELIMITER_LENGTH: nat := 16

  type Text = seq<char>

  /** What closes a raw string: a parenthesis, the delimiter and a quote. */
  function Closing(d: Text): Text {
    [')'] + d + ['"']
  }

  predicate OccursAt(pattern: Text, text: Text, at: nat) {
    at + |pattern| <= |text| && text[at..at + |pattern|] == pattern
  }

  predicate Occurs(pattern: Text, text: Text) {
    exists at :: 0 <= at <= |text| && OccursAt(pattern, text, at)
  }

  /** The content ends at the first closing, or with the text. */
  ghost predicate IsContentEnd(d: Text, text: Text, start: nat, end: nat) {
    && start <= end <= |text|
    && (forall q :: start <= q < end ==> !OccursAt(Closing(d), text, q))
    && (end < |text| ==> OccursAt(Closing(d), text, end))
    && (end == |text| ==> forall q :: start <= q ==> !OccursAt(Closing(d), text, q))
  }

  /** Where a scan from `position` ends the content, if the counter stands at `index` since the
      parenthesis at `mark`. */
  function ContentEnd(d: Text, text: Text, position: nat, index: int, mark: nat): (end: nat)
    requires position <= |text| && -1 <= index <= |d|
    decreases |text| - position
  {
    if position == |text| then position
    else
      var c := text[position];
      if index == |d| && c == '"' then mark
      else if 0 <= index < |d| && c == d[index] then ContentEnd(d, text, position + 1, index + 1, mark)
      else if c == ')' then ContentEnd(d, text, position + 1, 0, position)
      else ContentEnd(d, text, position + 1, -1, mark)
  }

  // ---- When a single counter is enough ----

  /** Wherever the delimiter contains a parenthesis, what follows it is how the delimiter, with
      its quote, begins. In particular it may contain none. */
  predicate CounterSuffices(d: Text) {
    forall i :: 0 <= i < |d| && d[i] == ')' ==> d[i + 1..] + ['"'] <= d + ['"']
  }

  /** The counter is on the track of a closing that would start at `mark`. */
  ghost predicate Tracking(d: Text, text: Text, position: nat, index: int, mark: nat) {
    index >= 0 ==>
      index <= |d| && mark + index + 1 == position <= |text| && text[mark..position] == Closing(d)[..index + 1]
  }

  /** No closing starts before the place that the counter is tracking. */
  ghost predicate NoneBefore(d: Text, text: Text, start: nat, position: nat, index: int, mark: nat) {
    forall q :: start <= q < (if index >= 0 then mark else position) ==> !OccursAt(Closing(d), text, q)
  }

  lemma OccurrenceReads(pattern: Text, text: Text, at: nat)
    ensures OccursAt(pattern, text, at) ==>
              forall x :: 0 <= x < |pattern| ==> at + x < |text| && text[at + x] == pattern[x]
  {
    if at + |pattern| <= |text| {
      var window := text[at..at + |pattern|];
      assert forall x :: 0 <= x < |pattern| ==> window[x] == text[at + x];
    }
  }

  /** When the track is lost, every closing that could have begun along it is lost as well. */
  lemma TrackLost(d: Text, text: Text, position: nat, index: int, mark: nat, q: nat)
    requires CounterSuffices(d) && 0 <= index <= |d| && Tracking(d, text, position, index, mark)
    requires position < |text| && text[position] != Closing(d)[index + 1] && mark <= q < position
    ensures !OccursAt(Closing(d), text, q)
  {
    var p, shift := Closing(d), q - mark;
    OccurrenceReads(p, text, q);
    assert text[q] == text[mark..position][shift] == p[shift];
    if shift > 0 && d[shift - 1] == ')' {
      var tail := d[shift..] + ['"'];
      assert tail <= d + ['"'];
      assert p[index + 1] == tail[position - q - 1] == (d + ['"'])[position - q - 1] == p[position - q];
    }
  }

  lemma TrackGrows(d: Text, text: Text, position: nat, index: int, mark: nat)
    requires 0 <= index < |d| && Tracking(d, text, position, index, mark) && position < |text|
    requires text[position] == d[index]
    ensures Tracking(d, text, position + 1, index + 1, mark)
  {
    assert text[mark..position + 1] == text[mark..position] + [text[position]];
    assert Closing(d)[..index + 2] == Closing(d)[..index + 1] + [d[index]];
  }

  lemma NoneStartsHere(d: Text, text: Text, position: nat)
    requires position < |text| && text[position] != ')'
    ensures !OccursAt(Closing(d), text, position)
  {
    OccurrenceReads(Closing(d), text, position);
  }

  lemma TooLateAtEnd(d: Text, text: Text, start: nat, index: int, mark: nat)
    requires -1 <= index <= |d| && NoneBefore(d, text, start, |text|, index, mark)
    requires Tracking(d, text, |text|, index, mark)
    ensures forall q :: start <= q ==> !OccursAt(Closing(d), text, q)
  {
    forall q | start <= q
      ensures !OccursAt(Closing(d), text, q)
    {
      assert index >= 0 ==> mark + |Closing(d)| > |text|;
    }
  }

  /** If the counter suffices, the scan ends at the first closing, or with the text. */
  lemma FirstOfClosing(d: Text, text: Text, start: nat, position: nat)
    requires start <= position < |text| && text[position] == ')'
    requires forall q :: start <= q < position ==> !OccursAt(Closing(d), text, q)
    ensures Tracking(d, text, position + 1, 0, position) && NoneBefore(d, text, start, position + 1, 0, position)
  {
    assert text[position..position + 1] == [')'] == Closing(d)[..1];
  }

  lemma {:induction false} ScanIsRight(d: Text, text: Text, start: nat, position: nat, index: int, mark: nat)
    requires CounterSuffices(d) && start <= position <= |text| && -1 <= index <= |d|
    requires Tracking(d, text, position, index, mark) && NoneBefore(d, text, start, position, index, mark)
    requires index >= 0 ==> start <= mark
    ensures IsContentEnd(d, text, start, ContentEnd(d, text, position, index, mark))
    decreases |text| - position
  {
    if position == |text| {
      TooLateAtEnd(d, text, start, index, mark);
    } else {
      var c := text[position];
      if index == |d| && c == '"' {
        TrackComplete(d, text, start, position, mark);
      } else if 0 <= index < |d| && c == d[index] {
        TrackGrows(d, text, position, index, mark);
        ScanIsRight(d, text, start, position + 1, index + 1, mark);
      } else {
        NoneSoFar(d, text, start, position, index, mark);
        if c == ')' {
          FirstOfClosing(d, text, start, position);
          ScanIsRight(d, text, start, position + 1, 0, position);
        } else {
          NoneStartsHere(d, text, position);
          ScanIsRight(d, text, start, position + 1, -1, mark);
        }
      }
    }
  }

  lemma TrackComplete(d: Text, text: Text, start: nat, position: nat, mark: nat)
    requires Tracking(d, text, position, |d|, mark) && NoneBefore(d, text, start, position, |d|, mark) && start <= mark
    requires position < |text| && text[position] == '"'
    ensures IsContentEnd(d, text, start, mark)
  {
    assert text[mark..position + 1] == text[mark..position] + ['"'] == Closing(d)[..|d| + 1] + ['"'] == Closing(d);
  }

  lemma NoneSoFar(d: Text, text: Text, start: nat, position: nat, index: int, mark: nat)
    requires CounterSuffices(d) && start <= position < |text| && -1 <= index <= |d|
    requires Tracking(d, text, position, index, mark) && NoneBefore(d, text, start, position, index, mark)
    requires index == |d| ==> text[position] != '"'
    requires 0 <= index < |d| ==> text[position] != d[index]
    ensures forall q :: start <= q < position ==> !OccursAt(Closing(d), text, q)
  {
    if index >= 0 {
      assert Closing(d)[index + 1] == if index == |d| then '"' else d[index];
      forall q | mark <= q < position
        ensures !OccursAt(Closing(d), text, q)
      {
        TrackLost(d, text, position, index, mark, q);
      }
    }
  }

  // ---- When it is not ----

  /** A scan cannot stop at a mark from which the closing would not fit. */
  lemma {:induction false} ScanRunsOut(d: Text, text: Text, position: nat, index: int, mark: nat)
    requires position <= |text| && -1 <= index <= |d|
    requires if index >= 0 then mark + index + 1 == position && mark + |d| + 2 > |text| else position + |d| + 2 > |text|
    ensures ContentEnd(d, text, position, index, mark) == |text|
    decreases |text| - position
  {
    if position < |text| {
      var c := text[position];
      if 0 <= index < |d| && c == d[index] {
        ScanRunsOut(d, text, position + 1, index + 1, mark);
      } else if c == ')' {
        ScanRunsOut(d, text, position + 1, 0, position);
      } else {
        ScanRunsOut(d, text, position + 1, -1, mark);
      }
    }
  }

  /** The scan stays on a track as long as the text does. */
  lemma {:induction false} ScanStaysOnTrack(d: Text, text: Text, k: nat, position: nat)
    requires 1 <= position <= k <= |d| + 1 && k <= |text| && text[..k] == Closing(d)[..k]
    ensures ContentEnd(d, text, position, position - 1, 0) == ContentEnd(d, text, k, k - 1, 0)
    decreases k - position
  {
    if position < k {
      assert text[position] == text[..k][position] == Closing(d)[position] == d[position - 1];
      ScanStaysOnTrack(d, text, k, position + 1);
    }
  }

  lemma FirstDifference(a: Text, b: Text) returns (m: nat)
    requires !(a <= b) && |a| <= |b|
    ensures m < |a| && a[m] != b[m] && a[..m] == b[..m]
  {
    m := 0;
    while m < |a| && a[m] == b[m]
      invariant m <= |a| && a[..m] == b[..m]
    {
      assert a[..m + 1] == b[..m + 1];
      m := m + 1;
    }
    assert a[..|a|] == a;
  }

  /** Otherwise there is a text whose closing the scan overlooks. */
  lemma ScanMissesAClosing(d: Text) returns (text: Text)
    requires !CounterSuffices(d)
    ensures !IsContentEnd(d, text, 0, ContentEnd(d, text, 0, -1, 0))
  {
    var i :| 0 <= i < |d| && d[i] == ')' && !(d[i + 1..] + ['"'] <= d + ['"']);
    var j := FirstDifference(d[i + 1..] + ['"'], d + ['"']);
    text := Overlapping(d, i);
    OverlapAgrees(d, i, j);
    OverlapRunsOut(d, text, i + 2 + j);
    assert OccursAt(Closing(d), text, i + 1);
  }

  /** A scan that follows the wrong closing up to the difference finds none any more. */
  lemma OverlapRunsOut(d: Text, text: Text, k: nat)
    requires 1 <= k <= |d| + 1 && k < |text| && text[0] == ')' && text[..k] == Closing(d)[..k]
    requires text[k] != if k == |d| + 1 then '"' else d[k - 1]
    requires k + |d| + 2 > |text|
    ensures ContentEnd(d, text, 0, -1, 0) == |text|
  {
    ScanStaysOnTrack(d, text, k, 1);
    if text[k] == ')' {
      ScanRunsOut(d, text, k + 1, 0, k);
    } else {
      ScanRunsOut(d, text, k + 1, -1, 0);
    }
  }

  /** A closing that starts at the parenthesis inside another one. */
  function Overlapping(d: Text, i: nat): Text
    requires i < |d|
  {
    Closing(d)[..i + 1] + Closing(d)
  }

  /** The two closings agree until the first difference of what follows their parentheses. */
  lemma OverlapAgrees(d: Text, i: nat, j: nat)
    requires i < |d| && d[i] == ')' && j < |d| - i
    requires (d[i + 1..] + ['"'])[..j] == (d + ['"'])[..j] && (d[i + 1..] + ['"'])[j] != (d + ['"'])[j]
    ensures var text, k := Overlapping(d, i), i + 2 + j;
            && k < |text| && text[0] == ')' && text[..k] == Closing(d)[..k] && text[k] != Closing(d)[k]
            && OccursAt(Closing(d), text, i + 1) && |text| == i + 1 + |Closing(d)|
            && Closing(d)[k] == if k == |d| + 1 then '"' else d[k - 1]
  {
    var text, p, k := Overlapping(d, i), Closing(d), i + 2 + j;
    var tail, whole := d[i + 1..] + ['"'], d + ['"'];
    assert text[i + 1..i + 1 + |p|] == p;
    assert p[k] == tail[j] && text[k] == p[j + 1] == whole[j];
    forall x | 0 <= x < k
      ensures text[x] == p[x]
    {
      if x > i + 1 {
        var y := x - i - 2;
        assert tail[..j][y] == whole[..j][y];
        assert p[x] == tail[y] && text[x] == p[y + 1] == whole[y];
      }
    }
  }

  /** A single counter finds the first closing in every text exactly if the condition holds. */
  lemma CounterSufficesIff(d: Text)
    ensures CounterSuffices(d) <==>
              forall text: Text, start: nat :: start <= |text| ==>
                IsContentEnd(d, text, start, ContentEnd(d, text, start, -1, start))
  {
    if CounterSuffices(d) {
      forall text: Text, start: nat | start <= |text|
        ensures IsContentEnd(d, text, start, ContentEnd(d, text, start, -1, start))
      {
        ScanIsRight(d, text, start, start, -1, start);
      }
    } else {
      var text := ScanMissesAClosing(d);
      assert !IsContentEnd(d, text, 0, ContentEnd(d, text, 0, -1, 0));
    }
  }

  // ---- The scanner ----

  class Lexer {
    const text: Text
    var position: nat
    /** Where the token ends, if it was marked. */
    var mark: nat

    ghost predicate Valid()
      reads this
    {
      position <= |text|
    }

    constructor (text: Text)
      ensures Valid() && this.text == text && position == 0
    {
      this.text, position, mark := text, 0, 0;
    }

    predicate Eof()
      requires Valid()
      reads this
    {
      position == |text|
    }

    /** The next character, or zero at the end of the text. */
    function Lookahead(): char
      requires Valid()
      reads this
    {
      if Eof() then '\0' else text[position]
    }

    method Advance()
      requires Valid()
      modifies this`position
      ensures Valid() && position == if old(position) < |text| then old(position) + 1 else old(position)
    {
      if !Eof() {
        position := position + 1;
      }
    }

    /** The next token begins where the last one was marked to end. */
    method Restart()
      requires mark <= |text|
      modifies this`position
      ensures Valid() && position == mark
    {
      position := mark;
    }

    method MarkEnd()
      modifies this`mark
      ensures mark == position
    {
      mark := position;
    }
  }

  /** The character at a place in the text; beyond its end, zero. */
  function CharAt(text: Text, at: nat): char {
    if at < |text| then text[at] else '\0'
  }

  predicate GoesOnWith(text: Text, start: nat, d: Text) {
    forall i :: 0 <= i < |d| ==> CharAt(text, start + i) == d[i]
  }

  /** A character that an opening delimiter may contain, as far as the scanner checks. */
  predicate IsDelimiterChar(isSpace: char -> bool, c: char) {
    c != '\\' && !isSpace(c) && c != '('
  }

  predicate IsDelimiter(isSpace: char -> bool, d: Text) {
    1 <= |d| < MAX_DELIMITER_LENGTH && forall i :: 0 <= i < |d| ==> IsDelimiterChar(isSpace, d[i])
  }

  class Scanner {
    const isSpace: char -> bool
    const delimiter: array<char>
    var delimiterLength: nat

    ghost predicate Valid()
      reads this
    {
      delimiter.Length == MAX_DELIMITER_LENGTH && delimiterLength <= MAX_DELIMITER_LENGTH && !isSpace('(')
    }

    /** The delimiter that has been recorded. */
    function Recorded(): Text
      requires Valid()
      reads this, delimiter
    {
      delimiter[..delimiterLength]
    }

    constructor (isSpace: char -> bool)
      requires !isSpace('(')
      ensures Valid() && fresh(delimiter) && Recorded() == [] && this.isSpace == isSpace
    {
      this.isSpace := isSpace;
      delimiter := new char[MAX_DELIMITER_LENGTH](_ => '\0');
      delimiterLength := 0;
    }

    /** Records the delimiter up to the opening parenthesis. It succeeds exactly if the text goes on
        with one to fifteen delimiter characters and the parenthesis. */
    method ScanOpening(lexer: Lexer) returns (ok: bool)
      requires Valid() && lexer.Valid() && delimiterLength == 0
      modifies this`delimiterLength, delimiter, lexer`position
      ensures Valid() && lexer.Valid() && old(lexer.position) <= lexer.position
      ensures ok ==> Recorded() == lexer.text[old(lexer.position)..lexer.position] && IsDelimiter(isSpace, Recorded())
                     && lexer.position < |lexer.text| && lexer.text[lexer.position] == '('
      ensures !ok ==> forall d: Text :: IsDelimiter(isSpace, d) ==> !(d + ['('] <= lexer.text[old(lexer.position)..])
    {
      ghost var start := lexer.position;
      while true
        invariant Valid() && lexer.Valid() && start + delimiterLength == lexer.position
        invariant Recorded() == lexer.text[start..lexer.position]
        invariant forall i :: 0 <= i < delimiterLength ==> IsDelimiterChar(isSpace, delimiter[i])
        decreases MAX_DELIMITER_LENGTH - delimiterLength
      {
        var c := lexer.Lookahead();
        assert forall i :: start <= i < lexer.position ==> lexer.text[i] == Recorded()[i - start];
        if delimiterLength >= MAX_DELIMITER_LENGTH || lexer.Eof() || c == '\\' || isSpace(c) {
          NoDelimiterHere(isSpace, lexer.text, start, lexer.position);
          return false;
        }
        if c == '(' {
          if delimiterLength == 0 {
            NoDelimiterHere(isSpace, lexer.text, start, lexer.position);
          }
          return delimiterLength > 0;
        }
        delimiter[delimiterLength] := c;
        delimiterLength := delimiterLength + 1;
        lexer.Advance();
      }
    }

    /** Goes past the recorded delimiter, if the text goes on with it, and forgets it. */
    method ScanClosing(lexer: Lexer) returns (ok: bool)
      requires Valid() && lexer.Valid() && delimiterLength > 0
      modifies this`delimiterLength, delimiter, lexer`position
      ensures Valid() && lexer.Valid()
      ensures ok <==> GoesOnWith(lexer.text, old(lexer.position), old(Recorded()))
      ensures ok ==> Recorded() == []
      ensures ok && old(lexer.position) + old(delimiterLength) <= |lexer.text| ==>
                lexer.position == old(lexer.position) + old(delimiterLength)
      ensures !ok ==> Recorded() == old(Recorded())
    {
      ghost var start, d := lexer.position, Recorded();
      var i := 0;
      while i < delimiterLength
        invariant i <= delimiterLength == |d| && Valid() && lexer.Valid() && Recorded() == d
        invariant lexer.position == if start + i <= |lexer.text| then start + i else |lexer.text|
        invariant forall k :: 0 <= k < i ==> CharAt(lexer.text, start + k) == d[k]
      {
        assert lexer.Lookahead() == CharAt(lexer.text, start + i) && delimiter[i] == d[i];
        if lexer.Lookahead() != delimiter[i] {
          return false;
        }
        lexer.Advance();
        i := i + 1;
      }
      Reset();
      return true;
    }

    method Reset()
      requires Valid()
      modifies this`delimiterLength, delimiter
      ensures Valid() && Recorded() == []
    {
      delimiterLength := 0;
      forall i | 0 <= i < delimiter.Length {
        delimiter[i] := '\0';
      }
    }

    /** Goes through the content and marks its end: the first closing, or the end of the text. */
    method ScanContent(lexer: Lexer) returns (ok: bool)
      requires Valid() && lexer.Valid()
      modifies lexer`position, lexer`mark
      ensures ok && lexer.Valid() && Valid() && Recorded() == old(Recorded())
      ensures lexer.mark == ContentEnd(Recorded(), lexer.text, old(lexer.position), -1, old(lexer.mark))
      ensures CounterSuffices(Recorded()) ==> IsContentEnd(Recorded(), lexer.text, old(lexer.position), lexer.mark)
    {
      ghost var d, start, end := Recorded(), lexer.position,
          ContentEnd(Recorded(), lexer.text, lexer.position, -1, lexer.mark);
      if CounterSuffices(d) {
        ScanIsRight(d, lexer.text, start, start, -1, lexer.mark);
      }
      var index := -1;
      while true
        invariant lexer.Valid() && Valid() && Recorded() == d && -1 <= index <= |d|
        invariant ContentEnd(d, lexer.text, lexer.position, index, lexer.mark) == end
        decreases |lexer.text| - lexer.position
      {
        if lexer.Eof() {
          lexer.MarkEnd();
          return true;
        }
        var c := lexer.Lookahead();
        if index >= 0 {
          if index == delimiterLength {
            if c == '"' {
              return true;
            }
            index := -1;
          } else if c == delimiter[index] {
            index := index + 1;
          } else {
            index := -1;
          }
        }
        if index == -1 && c == ')' {
          lexer.MarkEnd();
          index := 0;
        }
        lexer.Advance();
      }
    }

    /** The delimiter as the parser keeps it between calls. */
    method Serialize() returns (buffer: Text)
      requires Valid()
      ensures buffer == Recorded()
    {
      buffer := delimiter[..delimiterLength];
    }

    method Deserialize(buffer: Text)
      requires Valid() && |buffer| <= MAX_DELIMITER_LENGTH
      modifies this`delimiterLength, delimiter
      ensures Valid() && Recorded() == buffer
    {
      delimiterLength := |buffer|;
      forall i | 0 <= i < |buffer| {
        delimiter[i] := buffer[i];
      }
    }
  }

  /** Where the opening scan gives up, no delimiter with its parenthesis can begin. */
  lemma NoDelimiterHere(isSpace: char -> bool, text: Text, start: nat, position: nat)
    requires start <= position <= |text| && !isSpace('(')
    requires forall i :: start <= i < position ==> IsDelimiterChar(isSpace, text[i])
    requires || position - start >= MAX_DELIMITER_LENGTH || position == |text| || text[position] == '\\'
             || isSpace(text[position]) || (text[position] == '(' && position == start)
    ensures forall d: Text :: IsDelimiter(isSpace, d) ==> !(d + ['('] <= text[start..])
  {
    forall d: Text | IsDelimiter(isSpace, d)
      ensures !(d + ['('] <= text[start..])
    {
      var n, p, rest := |d|, position - start, text[start..];
      OpeningReads(d, rest);
      assert n < p ==> IsDelimiterChar(isSpace, text[start + n]);
      assert p < n ==> IsDelimiterChar(isSpace, d[p]);
    }
  }

  lemma OpeningReads(d: Text, text: Text)
    ensures d + ['('] <= text ==> |d| < |text| && text[|d|] == '(' && forall i :: 0 <= i < |d| ==> text[i] == d[i]
  {
    var wanted := d + ['('];
    assert wanted[|d|] == '(' && forall i :: 0 <= i < |d| ==> wanted[i] == d[i];
  }

  // ---- Reading a whole raw string ----

  /** The text of a raw string behind its first quote, and whatever follows it. */
  function Quoted(d: Text, content: Text, rest: Text): Text {
    d + ['('] + content + Closing(d) + rest
  }

  lemma QuotedParts(d: Text, content: Text, rest: Text)
    ensures var text, n, m := Quoted(d, content, rest), |d|, |d| + 1 + |content|;
            && |text| == m + |d| + 2 + |rest|
            && text[..n] == d && text[n] == '(' && text[n + 1..m] == content
            && OccursAt(Closing(d), text, m)
            && GoesOnWith(text, m + 1, d) && text[m + 1 + n] == '"'
            && d + ['('] <= text[0..]
  {
    var text, m, p := Quoted(d, content, rest), |d| + 1 + |content|, Closing(d);
    assert text == (d + ['('] + content) + p + rest;
    assert text[m..m + |p|] == p;
    OccurrenceReads(p, text, m);
    forall i | 0 <= i < |d|
      ensures CharAt(text, m + 1 + i) == d[i]
    {
      assert text[m + (1 + i)] == p[1 + i];
    }
    assert text[m + (1 + |d|)] == p[1 + |d|];
  }

  lemma ContentAndClosing(d: Text, content: Text, rest: Text)
    ensures var text, m := Quoted(d, content, rest), |d| + 1 + |content|;
            m <= |text| && text[|d| + 1..m] == content && OccursAt(Closing(d), text, m)
  {
    QuotedParts(d, content, rest);
  }

  lemma ClosingFollows(d: Text, content: Text, rest: Text)
    ensures var text, m := Quoted(d, content, rest), |d| + 1 + |content|;
            m + 1 + |d| < |text| && GoesOnWith(text, m + 1, d)
  {
    QuotedParts(d, content, rest);
  }

  /** A closing that lies within the content, or one that reaches beyond it and so would have to
      contain the parenthesis of the real one. */
  lemma NoneInContent(d: Text, content: Text, rest: Text, at: nat)
    requires ')' !in d && !Occurs(Closing(d), content) && at < |content|
    ensures !OccursAt(Closing(d), Quoted(d, content, rest), |d| + 1 + at)
  {
    var p, text, start := Closing(d), Quoted(d, content, rest), |d| + 1;
    ContentAndClosing(d, content, rest);
    if |content| - at < |p| {
      ReachesBeyond(d, text, start + at, |content| - at);
    } else {
      WithinContent(text, start, content, at, |p|);
      assert !OccursAt(p, content, at);
    }
  }

  /** Two closings that overlap would put a parenthesis into the delimiter. */
  lemma ReachesBeyond(d: Text, text: Text, at: nat, reach: nat)
    requires ')' !in d && 0 < reach < |Closing(d)| && OccursAt(Closing(d), text, at + reach)
    ensures !OccursAt(Closing(d), text, at)
  {
    OccurrenceReads(Closing(d), text, at);
    OccurrenceReads(Closing(d), text, at + reach);
    assert Closing(d)[reach] != ')' == Closing(d)[0];
    assert text[at + reach] == text[(at + reach) + 0];
  }

  lemma WithinContent(text: Text, start: nat, content: Text, at: nat, n: nat)
    requires start + |content| <= |text| && text[start..start + |content|] == content && at + n <= |content|
    ensures text[start + at..start + at + n] == content[at..at + n]
  {
    var inner, window := text[start..start + |content|], text[start + at..start + at + n];
    forall x | 0 <= x < n
      ensures window[x] == content[at..at + n][x]
    {
      assert inner[at + x] == text[start + at + x];
    }
  }

  /** Content without a closing in it ends where the closing behind it begins. */
  lemma ContentEndsAtClosing(d: Text, content: Text, rest: Text, end: nat)
    requires ')' !in d && !Occurs(Closing(d), content)
    requires IsContentEnd(d, Quoted(d, content, rest), |d| + 1, end)
    ensures end == |d| + 1 + |content|
  {
    QuotedParts(d, content, rest);
    if end < |d| + 1 + |content| {
      NoneInContent(d, content, rest, end - |d| - 1);
    }
  }

  /** Reading back a raw string gives its delimiter, its content and its closing delimiter
      (section 5.13.5 of ISO/IEC 14882:2017). */
  method ReadBack(isSpace: char -> bool, d: Text, content: Text, rest: Text)
    returns (delimiter: Text, read: Text, closed: bool, position: nat)
    requires !isSpace('(') && IsDelimiter(isSpace, d) && ')' !in d && !Occurs(Closing(d), content)
    ensures delimiter == d && read == content && closed
    ensures position < |Quoted(d, content, rest)| && Quoted(d, content, rest)[position] == '"'
    ensures position == |d| + 1 + |content| + 1 + |d|
  {
    var text := Quoted(d, content, rest);
    QuotedParts(d, content, rest);
    var lexer := new Lexer(text);
    var scanner := new Scanner(isSpace);
    delimiter := ReadOpening(scanner, lexer, d);
    read, closed := ReadRest(scanner, lexer, d, content, rest);
    position := lexer.position;
  }

  /** Reads the content and the closing delimiter, leaving the parenthesis before it out. */
  method ReadRest(scanner: Scanner, lexer: Lexer, ghost d: Text, ghost content: Text, ghost rest: Text)
    returns (read: Text, closed: bool)
    requires scanner.Valid() && lexer.Valid() && lexer.text == Quoted(d, content, rest) && lexer.position == |d| + 1
    requires scanner.Recorded() == d && d != [] && ')' !in d && !Occurs(Closing(d), content)
    modifies scanner`delimiterLength, scanner.delimiter, lexer`position, lexer`mark
    ensures read == content && closed && lexer.position == |d| + 1 + |content| + 1 + |d|
  {
    ContentAndClosing(d, content, rest);
    ClosingFollows(d, content, rest);
    var start := lexer.position;
    assert CounterSuffices(d);
    var ok := scanner.ScanContent(lexer);
    ContentEndsAtClosing(d, content, rest, lexer.mark);
    read := lexer.text[start..lexer.mark];
    lexer.Restart();
    lexer.Advance();
    closed := scanner.ScanClosing(lexer);
  }

  /** Reads the opening delimiter and its parenthesis; the scanner's state is saved and restored. */
  method ReadOpening(scanner: Scanner, lexer: Lexer, ghost d: Text) returns (delimiter: Text)
    requires scanner.Valid() && lexer.Valid() && lexer.position == 0 && scanner.delimiterLength == 0
    requires IsDelimiter(scanner.isSpace, d) && d + ['('] <= lexer.text[0..]
    modifies scanner`delimiterLength, scanner.delimiter, lexer`position
    ensures scanner.Valid() && lexer.Valid() && scanner.Recorded() == delimiter == d && lexer.position == |d| + 1
  {
    var ok := scanner.ScanOpening(lexer);
    assert ok;
    assert lexer.text[0..] == lexer.text;
    OpeningIsUnique(scanner.isSpace, lexer.text, d, lexer.position);
    assert lexer.text[0..lexer.position] == d;
    delimiter := scanner.Serialize();
    lexer.Advance();
    scanner.Deserialize(delimiter);
  }

  /** The delimiter ends at the first parenthesis. */
  lemma OpeningIsUnique(isSpace: char -> bool, text: Text, d: Text, position: nat)
    requires IsDelimiter(isSpace, d) && d + ['('] <= text && position < |text| && text[position] == '('
    requires IsDelimiter(isSpace, text[..position])
    ensures position == |d|
  {
    assert position < |d| ==> IsDelimiterChar(isSpace, d[position]);
    assert |d| < position ==> IsDelimiterChar(isSpace, text[..position][|d|]);
  }
}
