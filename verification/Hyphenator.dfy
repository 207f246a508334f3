// Pattern hyphenation: dw/hyphenator.cc:149-182 and 293-374.
module Hyphenation {
  import opened Common
  import opened Trie
  import opened TrieBuilding

  // ----- patterns ------------------------------------------------------------

  predicate IsDigit(c: Byte) {
    48 <= c <= 57
  }

  function DigitChar(c: Byte): char
    requires IsDigit(c)
  {
    ['0', '1', '2', '3', '4', '5', '6', '7', '8', '9'][c - 48]
  }

  function DigitValue(c: char): int {
    c as int - '0' as int
  }

  // The letters of a pattern like "a1bc3d4": "abcd".
  function Letters(s: Word): Word {
    if s == [] then []
    else
      var n := |s| - 1;
      if IsDigit(s[n]) then Letters(s[..n]) else Letters(s[..n]) + [s[n]]
  }

  // The number written before each letter and after the last one: "01034".
  function Points(s: Word): (r: string)
    ensures |r| == |Letters(s)| + 1
    ensures forall k :: 0 <= k < |r| ==> 0 <= DigitValue(r[k]) <= 9
  {
    if s == [] then "0"
    else
      var n := |s| - 1;
      var r := Points(s[..n]);
      if IsDigit(s[n]) then r[|r| - 1 := DigitChar(s[n])] else r + "0"
  }

  function Pattern(s: Word): DataEntry {
    DataEntry(Letters(s), Points(s))
  }

  // A pattern as it is written: each digit before its letter, the last one at the end.  A zero
  // may be left out.
  function WrittenDigit(digit: char, shown: bool): Word
    requires '0' <= digit <= '9'
  {
    if digit == '0' && !shown then [] else [digit as int]
  }

  predicate AreDigits(digits: string) {
    forall k {:trigger digits[k]} :: 0 <= k < |digits| ==> '0' <= digits[k] <= '9'
  }

  function Written(letters: Word, digits: string, shown: seq<bool>): Word
    requires |digits| == |shown| == |letters| + 1 && AreDigits(digits)
  {
    var n := |letters|;
    if n == 0 then WrittenDigit(digits[0], shown[0])
    else Written(letters[..n - 1], digits[..n], shown[..n]) + [letters[n - 1]] + WrittenDigit(digits[n], shown[n])
  }

  lemma DigitCharIs(digit: char)
    requires '0' <= digit <= '9'
    ensures IsDigit(digit as int) && DigitChar(digit as int) == digit
  {
    if
    case digit == '0' =>
    case digit == '1' =>
    case digit == '2' =>
    case digit == '3' =>
    case digit == '4' =>
    case digit == '5' =>
    case digit == '6' =>
    case digit == '7' =>
    case digit == '8' =>
    case digit == '9' =>
  }

  // A digit at the end of a text without one.
  lemma DigitAtEnd(s: Word, digit: char, shown: bool)
    requires '0' <= digit <= '9' && Points(s)[|Points(s)| - 1] == '0'
    ensures Letters(s + WrittenDigit(digit, shown)) == Letters(s)
    ensures Points(s + WrittenDigit(digit, shown)) == Points(s)[|Points(s)| - 1 := digit]
  {
    var t := s + WrittenDigit(digit, shown);
    if WrittenDigit(digit, shown) == [] {
      assert t == s;
    } else {
      DigitCharIs(digit);
      assert t == s + [digit as int];
      assert t[..|t| - 1] == s && t[|t| - 1] == digit as int;
    }
  }

  lemma LetterAtEnd(s: Word, letter: Byte, digit: char, shown: bool)
    requires !(48 <= letter <= 57) && '0' <= digit <= '9'
    ensures Letters(s + [letter] + WrittenDigit(digit, shown)) == Letters(s) + [letter]
    ensures Points(s + [letter] + WrittenDigit(digit, shown)) == Points(s) + [digit]
  {
    var t := s + [letter];
    assert t[..|t| - 1] == s;
    assert Letters(t) == Letters(s) + [letter] && Points(t) == Points(s) + "0";
    DigitAtEnd(t, digit, shown);
  }

  // Reading it gives these letters and these digits.
  lemma {:induction false} PatternRoundTrip(letters: Word, digits: string, shown: seq<bool>)
    requires |digits| == |shown| == |letters| + 1
    requires (forall k {:trigger letters[k]} :: 0 <= k < |letters| ==> !(48 <= letters[k] <= 57)) && AreDigits(digits)
    ensures Pattern(Written(letters, digits, shown)) == DataEntry(letters, digits)
    decreases |letters|
  {
    var n := |letters|;
    if n == 0 {
      OnlyDigit(letters, digits, shown);
    } else {
      PatternRoundTrip(letters[..n - 1], digits[..n], shown[..n]);
      PatternStep(Written(letters[..n - 1], digits[..n], shown[..n]), Written(letters, digits, shown), letters, digits, shown[n]);
    }
  }

  lemma PatternStep(front: Word, w: Word, letters: Word, digits: string, shown: bool)
    requires |letters| > 0 && |digits| == |letters| + 1 && !(48 <= letters[|letters| - 1] <= 57) && '0' <= digits[|letters|] <= '9'
    requires Pattern(front) == DataEntry(letters[..|letters| - 1], digits[..|letters|])
    requires w == front + [letters[|letters| - 1]] + WrittenDigit(digits[|letters|], shown)
    ensures Pattern(w) == DataEntry(letters, digits)
  {
    var n := |letters|;
    LetterAtEnd(front, letters[n - 1], digits[n], shown);
    assert letters[..n - 1] + [letters[n - 1]] == letters && digits[..n] + [digits[n]] == digits;
  }

  lemma OnlyDigit(letters: Word, digits: string, shown: seq<bool>)
    requires |digits| == |shown| == 1 && letters == [] && AreDigits(digits)
    ensures Letters(Written(letters, digits, shown)) == letters && Points(Written(letters, digits, shown)) == digits
  {
    var empty: Word := [];
    DigitAtEnd(empty, digits[0], shown[0]);
    assert empty + WrittenDigit(digits[0], shown[0]) == WrittenDigit(digits[0], shown[0]);
    assert Points(empty) == "0" && "0"[0 := digits[0]] == digits;
  }

  // The example in the source, and one in which a digit 0 is written.
  lemma PatternExample()
    ensures var a, b, c, d := 'a' as int, 'b' as int, 'c' as int, 'd' as int;
            && Pattern([a, '1' as int, b, c, '3' as int, d, '4' as int]) == DataEntry([a, b, c, d], "01034")
            && Pattern(['9' as int, a, '0' as int, b]) == DataEntry([a, b], "900")
  {
    var a, b, c, d := 'a' as int, 'b' as int, 'c' as int, 'd' as int;
    PatternRoundTrip([a, b, c, d], "01034", [false, true, false, true, true]);
    WrittenExample(a, b, c, d);
    PatternRoundTrip([a, b], "900", [true, true, false]);
    ZeroExample(a, b);
  }

  lemma WrittenStep(letters: Word, digits: string, shown: seq<bool>, next: Word, nextDigits: string, nextShown: seq<bool>)
    requires |digits| == |shown| == |letters| + 1 && |nextDigits| == |nextShown| == |next| + 1 == |letters| + 2 && AreDigits(nextDigits)
    requires letters == next[..|letters|] && digits == nextDigits[..|digits|] && shown == nextShown[..|shown|] && AreDigits(digits)
    ensures var digit := nextDigits[|digits|];
            Written(next, nextDigits, nextShown)
            == Written(letters, digits, shown) + [next[|letters|]] + if digit == '0' && !nextShown[|shown|] then [] else [digit as int]
  {
  }

  lemma WrittenExample(a: Byte, b: Byte, c: Byte, d: Byte)
    ensures Written([a, b, c, d], "01034", [false, true, false, true, true]) == [a, '1' as int, b, c, '3' as int, d, '4' as int]
  {
    var none: Word := [];
    WrittenStep(none, "0", [false], [a], "01", [false, true]);
    WrittenStep([a], "01", [false, true], [a, b], "010", [false, true, false]);
    WrittenStep([a, b], "010", [false, true, false], [a, b, c], "0103", [false, true, false, true]);
    WrittenStep([a, b, c], "0103", [false, true, false, true], [a, b, c, d], "01034", [false, true, false, true, true]);
  }

  lemma ZeroExample(a: Byte, b: Byte)
    ensures Written([a, b], "900", [true, true, false]) == ['9' as int, a, '0' as int, b]
  {
    var none: Word := [];
    WrittenStep(none, "9", [true], [a], "90", [true, true]);
    WrittenStep([a], "90", [true, true], [a, b], "900", [true, true, false]);
  }

  // SimpleVector::setSize with an initial value
  function Padded(v: string, size: nat): (r: string)
    ensures |r| == size
  {
    if size <= |v| then v[..size] else v + seq(size - |v|, _ => '0')
  }

  method InsertPattern(builder: TrieBuilder, s: Word)
    requires builder.Collecting() && 0 !in s
    modifies builder`dataList
    ensures builder.Collecting()
    ensures builder.dataList == old(builder.dataList) + [Pattern(s)]
  {
    var chars: Word := [];
    var points: string := "";
    for i := 0 to |s|
      invariant chars == Letters(s[..i]) && 0 !in chars
      invariant |points| <= |chars| + 1 && Padded(points, |chars| + 1) == Points(s[..i])
    {
      assert s[..i + 1][..i] == s[..i];
      if IsDigit(s[i]) {
        points := Padded(points, |chars| + 1)[|chars| := DigitChar(s[i])];
      } else {
        assert Padded(points, |chars| + 2) == Padded(points, |chars| + 1) + "0";
        chars := chars + [s[i]];
      }
    }
    assert s[..|s|] == s;
    points := Padded(points, |chars| + 1);
    builder.Insert(chars, points);
  }

  // ----- what the patterns say about a word ----------------------------------

  // A value has one digit more than its key has letters.
  predicate EntryFormed(e: DataEntry) {
    |e.value| == |e.key| + 1 && forall k :: 0 <= k < |e.value| ==> 0 <= DigitValue(e.value[k]) <= 9
  }

  ghost predicate WellFormed(list: seq<DataEntry>) {
    forall e :: e in list ==> EntryFormed(e)
  }

  ghost predicate Distinct(list: seq<DataEntry>) {
    forall e, e' :: e in list && e' in list && e.key == e'.key ==> e == e'
  }

  predicate OccursAt(key: Word, work: Word, i: nat) {
    |key| > 0 && i + |key| <= |work| && work[i..i + |key|] == key
  }

  // An occurrence of e at i has something to say about position q.
  predicate Concerns(e: DataEntry, work: Word, i: nat, q: nat) {
    OccursAt(e.key, work, i) && i <= q <= i + |e.key|
  }

  predicate Before(e: DataEntry, s: nat, i: nat, j: nat) {
    s < i || (s == i && s + |e.key| <= j)
  }

  // e occurs at s and says something about q; only occurrences at positions before
  // i count, and those at i that end at or before j.
  predicate Speaks(list: seq<DataEntry>, work: Word, q: nat, i: nat, j: nat, e: DataEntry, s: nat) {
    e in list && Concerns(e, work, s, q) && Before(e, s, i, j)
  }

  function Digit(e: DataEntry, k: int): int {
    if 0 <= k < |e.value| then DigitValue(e.value[k]) else 0
  }

  ghost predicate IsBound(list: seq<DataEntry>, work: Word, q: nat, v: int, i: nat, j: nat) {
    forall e, s: nat {:trigger Speaks(list, work, q, i, j, e, s)} ::
      Speaks(list, work, q, i, j, e, s) ==> Digit(e, q - s) <= v
  }

  ghost predicate IsAttained(list: seq<DataEntry>, work: Word, q: nat, v: int, i: nat, j: nat) {
    exists e, s: nat {:trigger Speaks(list, work, q, i, j, e, s)} ::
      Speaks(list, work, q, i, j, e, s) && Digit(e, q - s) == v
  }

  ghost predicate IsMaximum(list: seq<DataEntry>, work: Word, q: nat, v: int, i: nat, j: nat) {
    v >= 0 && IsBound(list, work, q, v, i, j) && (v == 0 || IsAttained(list, work, q, v, i, j))
  }

  // The level of a position: the maximum over all occurrences of all patterns.
  ghost predicate IsLevel(list: seq<DataEntry>, work: Word, q: nat, v: int) {
    IsMaximum(list, work, q, v, |work|, |work|)
  }

  lemma LevelIsUnique(list: seq<DataEntry>, work: Word, q: nat, v: int, v': int)
    requires IsLevel(list, work, q, v) && IsLevel(list, work, q, v')
    ensures v == v'
  {
  }

  // ----- the trie used as a dictionary ---------------------------------------

  function StateAfter(tree: seq<TrieNode>, state: int, w: Word): (r: int)
    requires Closed(tree) && Safe(tree, state)
    ensures Safe(tree, r)
    decreases |w|
  {
    if w == [] then state else StateAfter(tree, GetData(tree, w[0], state).1, w[1..])
  }

  lemma {:induction false} WalkStep(tree: seq<TrieNode>, state: int, w: Word, c: Byte)
    requires Closed(tree) && Safe(tree, state)
    ensures var (data, next) := GetData(tree, c, StateAfter(tree, state, w));
            Walk(tree, state, w + [c]) == data && StateAfter(tree, state, w + [c]) == next
    decreases |w|
  {
    if w != [] {
      var (_, next) := GetData(tree, w[0], state);
      assert (w + [c])[1..] == w[1..] + [c];
      WalkStep(tree, next, w[1..], c);
    }
  }

  lemma {:induction false} NothingAfterInvalid(tree: seq<TrieNode>, state: int, w: Word, v: Word)
    requires Closed(tree) && Safe(tree, state) && |v| > 0
    requires !ValidState(tree, StateAfter(tree, state, w))
    ensures Walk(tree, state, w + v) == None
    decreases |w|
  {
    if w == [] {
      assert w + v == v;
      WalkFromInvalid(tree, state, v);
    } else {
      var (_, next) := GetData(tree, w[0], state);
      assert (w + v)[1..] == w[1..] + v;
      NothingAfterInvalid(tree, next, w[1..], v);
    }
  }

  // With distinct keys the trie is the dictionary of the list.
  lemma TrieIsDictionary(tree: seq<TrieNode>, list: seq<DataEntry>, w: Word)
    requires Closed(tree) && Represents(tree, list) && Distinct(list) && |w| > 0
    ensures IsEntryOf(list, w, Walk(tree, ROOT, w))
  {
    assert Answers(tree, list, w);
  }

  // ----- one word ------------------------------------------------------------

  // Occurrences that count at (i, j) and those that count at (i', j') are the same.
  lemma MaximumSame(list: seq<DataEntry>, work: Word, q: nat, v: int, i: nat, j: nat, i': nat, j': nat)
    requires IsMaximum(list, work, q, v, i, j)
    requires forall e, s: nat {:trigger Speaks(list, work, q, i', j', e, s)} ::
               Speaks(list, work, q, i', j', e, s) ==> Speaks(list, work, q, i, j, e, s)
    requires forall e, s: nat {:trigger Speaks(list, work, q, i, j, e, s)} ::
               Speaks(list, work, q, i, j, e, s) ==> Speaks(list, work, q, i', j', e, s)
    ensures IsMaximum(list, work, q, v, i', j')
  {
  }

  lemma MaximumNextStart(list: seq<DataEntry>, work: Word, q: nat, v: int, i: nat)
    requires i < |work| && IsMaximum(list, work, q, v, i, |work|)
    ensures IsMaximum(list, work, q, v, i + 1, i + 1)
  {
    MaximumSame(list, work, q, v, i, |work|, i + 1, i + 1);
  }

  lemma LongerKeyAbsent(tree: seq<TrieNode>, list: seq<DataEntry>, work: Word, i: nat, j: nat, n: nat)
    requires Closed(tree) && Represents(tree, list) && i <= j < n <= |work|
    requires !ValidState(tree, StateAfter(tree, ROOT, work[i..j]))
    ensures forall e :: e in list ==> e.key != work[i..n]
  {
    assert work[i..n] == work[i..j] + work[j..n];
    NothingAfterInvalid(tree, ROOT, work[i..j], work[j..n]);
    assert Answers(tree, list, work[i..n]);
  }

  lemma MaximumNoLongerKey(tree: seq<TrieNode>, list: seq<DataEntry>, work: Word, q: nat, v: int, i: nat, j: nat)
    requires Closed(tree) && Represents(tree, list)
    requires i <= j <= |work| && IsMaximum(list, work, q, v, i, j)
    requires !ValidState(tree, StateAfter(tree, ROOT, work[i..j]))
    ensures IsMaximum(list, work, q, v, i, |work|)
  {
    forall e, s: nat | Speaks(list, work, q, i, |work|, e, s) ensures Speaks(list, work, q, i, j, e, s) {
      if s == i && s + |e.key| > j {
        LongerKeyAbsent(tree, list, work, i, j, i + |e.key|);
        assert false;
      }
    }
    MaximumSame(list, work, q, v, i, j, i, |work|);
  }

  // The digit that the datum found at i says about position q.
  function Contribution(data: Option<string>, i: nat, q: nat): int {
    if data.Some? && i <= q < i + |data.value| then DigitValue(data.value[q - i]) else 0
  }

  lemma MaximumNextEnd(list: seq<DataEntry>, work: Word, q: nat, v: int, i: nat, j: nat, data: Option<string>)
    requires WellFormed(list) && i <= j < |work| && IsMaximum(list, work, q, v, i, j)
    requires IsEntryOf(list, work[i..j + 1], data)
    ensures IsMaximum(list, work, q, Max(v, Contribution(data, i, q)), i, j + 1)
  {
    var key := work[i..j + 1];
    var v' := Max(v, Contribution(data, i, q));
    forall e, s: nat {:trigger Speaks(list, work, q, i, j + 1, e, s)} | Speaks(list, work, q, i, j + 1, e, s)
      ensures Digit(e, q - s) <= v'
    {
      if !Before(e, s, i, j) {
        assert e.key == key;
        assert EntryFormed(e);
      } else {
        assert Speaks(list, work, q, i, j, e, s);
      }
    }
    if v' != v {
      var e := DataEntry(key, data.value);
      assert EntryFormed(e) && Speaks(list, work, q, i, j + 1, e, i) && Digit(e, q - i) == v';
    } else if v != 0 {
      var e, s: nat :| Speaks(list, work, q, i, j, e, s) && Digit(e, q - s) == v;
      assert Speaks(list, work, q, i, j + 1, e, s);
    }
  }

  // data is the value of key in the list, if it has one.
  ghost predicate IsEntryOf(list: seq<DataEntry>, key: Word, data: Option<string>) {
    forall e {:trigger e in list} :: e in list && e.key == key <==> data.Some? && e == DataEntry(key, data.value)
  }

  // for (int k = 0; p[k]; k++) points.set(i + k, max(points.get(i + k), p[k] - '0'))
  method Merge(points0: seq<int>, data: Option<string>, i: nat) returns (points: seq<int>)
    requires data.Some? ==> i + |data.value| <= |points0|
    requires forall q :: 0 <= q < |points0| ==> points0[q] >= 0
    ensures |points| == |points0|
    ensures forall q :: 0 <= q < |points| ==> points[q] == Max(points0[q], Contribution(data, i, q))
  {
    points := points0;
    if data.Some? {
      var p := data.value;
      for k := 0 to |p|
        invariant |points| == |points0|
        invariant forall q :: 0 <= q < |points| ==>
                    points[q] == if i <= q < i + k then Max(points0[q], Contribution(data, i, q)) else points0[q]
      {
        points := points[i + k := Max(points[i + k], DigitValue(p[k]))];
      }
    }
  }

  ghost predicate AllMaximal(list: seq<DataEntry>, work: Word, points: seq<int>, i: nat, j: nat) {
    && |points| == |work| + 1
    && forall q {:trigger points[q]} :: 0 <= q < |points| ==> IsMaximum(list, work, q, points[q], i, j)
  }

  lemma LevelsNextEnd(list: seq<DataEntry>, work: Word, before: seq<int>, after: seq<int>, i: nat, j: nat, data: Option<string>)
    requires WellFormed(list) && i <= j < |work| && AllMaximal(list, work, before, i, j)
    requires IsEntryOf(list, work[i..j + 1], data)
    requires |after| == |before|
    requires forall q :: 0 <= q < |after| ==> after[q] == Max(before[q], Contribution(data, i, q))
    ensures AllMaximal(list, work, after, i, j + 1)
  {
    forall q | 0 <= q < |after| ensures IsMaximum(list, work, q, after[q], i, j + 1) {
      MaximumNextEnd(list, work, q, before[q], i, j, data);
    }
  }

  lemma LevelsNextStart(tree: seq<TrieNode>, list: seq<DataEntry>, work: Word, points: seq<int>, i: nat, j: nat)
    requires Closed(tree) && Represents(tree, list)
    requires i < |work| && i <= j <= |work| && AllMaximal(list, work, points, i, j)
    requires j == |work| || !ValidState(tree, StateAfter(tree, ROOT, work[i..j]))
    ensures AllMaximal(list, work, points, i + 1, i + 1)
  {
    forall q | 0 <= q < |points| ensures IsMaximum(list, work, q, points[q], i + 1, i + 1) {
      if j < |work| {
        MaximumNoLongerKey(tree, list, work, q, points[q], i, j);
      }
      MaximumNextStart(list, work, q, points[q], i);
    }
  }

  lemma SliceNext(w: Word, i: nat, j: nat)
    requires i <= j < |w|
    ensures w[i..j] + [w[j]] == w[i..j + 1]
  {
  }

  // One more byte is read; a datum that is found has a digit for each position
  // from i to j + 1, so it does not exceed the points.
  lemma ReadStep(tree: seq<TrieNode>, list: seq<DataEntry>, work: Word, i: nat, j: nat)
    requires WellFormed(list) && Closed(tree) && Represents(tree, list) && Distinct(list)
    requires i <= j < |work|
    ensures var (p, next) := GetData(tree, work[j], StateAfter(tree, ROOT, work[i..j]));
            && next == StateAfter(tree, ROOT, work[i..j + 1])
            && IsEntryOf(list, work[i..j + 1], p)
            && (p.Some? ==> i + |p.value| == j + 2)
  {
    var key := work[i..j + 1];
    SliceNext(work, i, j);
    WalkStep(tree, ROOT, work[i..j], work[j]);
    TrieIsDictionary(tree, list, key);
    var p := Walk(tree, ROOT, key);
    if p.Some? {
      assert DataEntry(key, p.value) in list;
      assert EntryFormed(DataEntry(key, p.value));
    }
  }

  // All states reached while reading work from position i on.
  method ReadFrom(tree: seq<TrieNode>, ghost list: seq<DataEntry>, work: Word, points0: seq<int>, i: nat)
    returns (points: seq<int>)
    requires WellFormed(list) && Closed(tree) && Represents(tree, list) && Distinct(list)
    requires i < |work| && AllMaximal(list, work, points0, i, i)
    ensures AllMaximal(list, work, points, i + 1, i + 1)
  {
    points := points0;
    var state := ROOT;
    var j := i;
    while j < |work| && ValidState(tree, state)
      invariant i <= j <= |work|
      invariant Safe(tree, state) && state == StateAfter(tree, ROOT, work[i..j])
      invariant AllMaximal(list, work, points, i, j)
    {
      ReadStep(tree, list, work, i, j);
      var (p, next) := GetData(tree, work[j], state);
      ghost var before := points;
      points := Merge(points, p, i);
      LevelsNextEnd(list, work, before, points, i, j, p);
      state := next;
      j := j + 1;
    }
    LevelsNextStart(tree, list, work, points, i, j);
  }

  const DOT: Byte := 46

  function Dotted(word: Word): Word {
    [DOT] + word + [DOT]
  }

  method ComputeLevels(tree: seq<TrieNode>, ghost list: seq<DataEntry>, work: Word) returns (points: seq<int>)
    requires WellFormed(list) && Closed(tree) && Represents(tree, list) && Distinct(list)
    ensures AllMaximal(list, work, points, |work|, |work|)
  {
    points := seq(|work| + 1, _ => 0);
    for i := 0 to |work|
      invariant AllMaximal(list, work, points, i, i)
    {
      points := ReadFrom(tree, list, work, points, i);
    }
  }

  // ----- UTF-8 characters: lout/unicode.cc:110-134, 162-168 --------------------

  function ByteAt(w: Word, k: nat): Byte {
    if k < |w| then w[k] else 0
  }

  predicate IsContinuation(b: Byte) {
    0x80 <= b < 0xc0
  }

  // The start of the next character, or None at the end of the word.
  function NextUtf8Char(w: Word, k: nat): (r: Option<nat>)
    ensures r.Some? ==> k < r.value < |w|
  {
    var b0, b1, b2, b3 := ByteAt(w, k), ByteAt(w, k + 1), ByteAt(w, k + 2), ByteAt(w, k + 3);
    var n :=
      if b0 < 0x80 then 1
      else if 0xc0 <= b0 < 0xe0 && IsContinuation(b1) then 2
      else if 0xe0 <= b0 < 0xf0 && IsContinuation(b1) && IsContinuation(b2) then 3
      else if 0xf0 <= b0 < 0xf8 && IsContinuation(b1) && IsContinuation(b2) && IsContinuation(b3) then 4
      else 1;
    if b0 == 0 || ByteAt(w, k + n) == 0 || k + n >= |w| then None else Some(k + n)
  }

  // A value in n bytes, in as many bits as these leave free.
  function Form(c: int, n: nat): Word
    requires (n == 2 && 0 <= c < 0x800) || (n == 3 && 0 <= c < 0x10000) || (n == 4 && 0 <= c < 0x200000)
  {
    if n == 2 then [0xc0 + c / 0x40, 0x80 + c % 0x40]
    else if n == 3 then [0xe0 + c / 0x1000, 0x80 + c / 0x40 % 0x40, 0x80 + c % 0x40]
    else [0xf0 + c / 0x40000, 0x80 + c / 0x1000 % 0x40, 0x80 + c / 0x40 % 0x40, 0x80 + c % 0x40]
  }

  // The bytes without their marks are the digits of the value in base 64.
  lemma FormIs(c: int, n: nat)
    requires (n == 2 && 0 <= c < 0x800) || (n == 3 && 0 <= c < 0x10000) || (n == 4 && 0 <= c < 0x200000)
    ensures |Form(c, n)| == n && forall i :: 1 <= i < n ==> 128 <= Form(c, n)[i] < 192
    ensures var f: seq<int> := Form(c, n);
            && (n == 2 ==> 192 <= f[0] < 224 && (f[0] - 192) * 64 + (f[1] - 128) == c)
            && (n == 3 ==> 224 <= f[0] < 240 && (f[0] - 224) * 4096 + (f[1] - 128) * 64 + (f[2] - 128) == c)
            && (n == 4 ==> 240 <= f[0] < 248 && (f[0] - 240) * 262144 + (f[1] - 128) * 4096 + (f[2] - 128) * 64 + (f[3] - 128) == c)
  {
    assert c / 0x40 / 0x40 == c / 0x1000 && c / 0x1000 / 0x40 == c / 0x40000;
  }

  ghost predicate HasForm(w: Word, k: nat, n: nat) {
    k + n <= |w| && (
      || (n == 2 && exists c {:trigger Form(c, n)} :: 0 <= c < 0x800 && w[k..k + n] == Form(c, n))
      || (n == 3 && exists c {:trigger Form(c, n)} :: 0 <= c < 0x10000 && w[k..k + n] == Form(c, n))
      || (n == 4 && exists c {:trigger Form(c, n)} :: 0 <= c < 0x200000 && w[k..k + n] == Form(c, n)))
  }

  lemma WhenForm2(w: Word, k: nat)
    requires k + 2 <= |w|
    ensures HasForm(w, k, 2) <==> 0xc0 <= w[k] < 0xe0 && IsContinuation(w[k + 1])
  {
    var v: seq<int> := w[k..k + 2];
    assert v[0] == w[k] && v[1] == w[k + 1];
    if 0xc0 <= v[0] < 0xe0 && 0x80 <= v[1] < 0xc0 {
      var c := (v[0] - 0xc0) * 0x40 + (v[1] - 0x80);
      assert c / 0x40 == v[0] - 0xc0 && Form(c, 2) == v;
    }
  }

  lemma WhenForm3(w: Word, k: nat)
    requires k + 3 <= |w|
    ensures HasForm(w, k, 3) <==> 0xe0 <= w[k] < 0xf0 && IsContinuation(w[k + 1]) && IsContinuation(w[k + 2])
  {
    var v: seq<int> := w[k..k + 3];
    assert v[0] == w[k] && v[1] == w[k + 1] && v[2] == w[k + 2];
    if 0xe0 <= v[0] < 0xf0 && 0x80 <= v[1] < 0xc0 && 0x80 <= v[2] < 0xc0 {
      var c := (v[0] - 0xe0) * 0x1000 + (v[1] - 0x80) * 0x40 + (v[2] - 0x80);
      assert c / 0x1000 == v[0] - 0xe0 && c / 0x40 == (v[0] - 0xe0) * 0x40 + (v[1] - 0x80) && Form(c, 3) == v;
    }
  }

  lemma WhenForm4(w: Word, k: nat)
    requires k + 4 <= |w|
    ensures HasForm(w, k, 4)
            <==> 0xf0 <= w[k] < 0xf8 && IsContinuation(w[k + 1]) && IsContinuation(w[k + 2]) && IsContinuation(w[k + 3])
  {
    var v: seq<int> := w[k..k + 4];
    assert v[0] == w[k] && v[1] == w[k + 1] && v[2] == w[k + 2] && v[3] == w[k + 3];
    if 0xf0 <= v[0] < 0xf8 && 0x80 <= v[1] < 0xc0 && 0x80 <= v[2] < 0xc0 && 0x80 <= v[3] < 0xc0 {
      var c := (v[0] - 0xf0) * 0x40000 + (v[1] - 0x80) * 0x1000 + (v[2] - 0x80) * 0x40 + (v[3] - 0x80);
      assert c / 0x40000 == v[0] - 0xf0 && c / 0x1000 == (v[0] - 0xf0) * 0x40 + (v[1] - 0x80)
          && c / 0x40 == (v[0] - 0xf0) * 0x1000 + (v[1] - 0x80) * 0x40 + (v[2] - 0x80) && Form(c, 4) == v;
    }
  }

  // In any C string: a value in two, three or four bytes is one character, valid or not; any
  // other byte is one by itself.
  lemma WhenNext(w: Word, k: nat)
    requires 0 !in w && k < |w|
    ensures exists n: nat {:trigger HasForm(w, k, n)} ::
              && (if n == 1 then forall m {:trigger HasForm(w, k, m)} :: 2 <= m <= 4 ==> !HasForm(w, k, m) else 2 <= n <= 4 && HasForm(w, k, n))
              && NextUtf8Char(w, k) == if k + n < |w| then Some(k + n) else None
  {
    assert forall i {:trigger ByteAt(w, i)} :: 0 <= i < |w| ==> ByteAt(w, i) in w;
    if k + 2 <= |w| { WhenForm2(w, k); }
    if k + 3 <= |w| { WhenForm3(w, k); }
    if k + 4 <= |w| { WhenForm4(w, k); }
    if HasForm(w, k, 2) {
    } else if HasForm(w, k, 3) {
    } else if HasForm(w, k, 4) {
    } else {
      assert forall m {:trigger HasForm(w, k, m)} :: 2 <= m <= 4 ==> m == 2 || m == 3 || m == 4;
      assert !HasForm(w, k, 1);
    }
  }

  // The starts of the characters from position k on.
  function Starts(w: Word, k: nat): (r: seq<nat>)
    ensures |r| > 0 && r[0] == k
    decreases |w| - k
  {
    match NextUtf8Char(w, k)
    case None => [k]
    case Some(k') => [k] + Starts(w, k')
  }

  lemma {:induction false} StartsStep(w: Word, k: nat, i: nat)
    requires i < |Starts(w, k)|
    ensures NextUtf8Char(w, Starts(w, k)[i]) ==
            if i + 1 < |Starts(w, k)| then Some(Starts(w, k)[i + 1]) else None
    decreases i
  {
    match NextUtf8Char(w, k) {
      case None =>
      case Some(k') => if i > 0 { StartsStep(w, k', i - 1); }
    }
  }

  // A character in UTF-8 (section 3 of RFC 3629).
  function Utf8(c: int): (r: Word)
    requires 0 < c < 0x110000
    ensures 1 <= |r| <= 4 && r[0] != 0
  {
    if c < 0x80 then [c]
    else if c < 0x800 then Form(c, 2)
    else if c < 0x10000 then Form(c, 3)
    else Form(c, 4)
  }

  // The shortest form is used.
  lemma Utf8Length(c: int)
    requires 0 < c < 0x110000
    ensures |Utf8(c)| == if c <= 127 then 1 else if c <= 2047 then 2 else if c <= 65535 then 3 else 4
    ensures c <= 127 ==> Utf8(c) == [c]
    ensures c > 127 ==> Utf8(c) == Form(c, |Utf8(c)|)
  {
  }

  // The letter e with an acute accent, the sign of the Euro, and the last code.
  lemma CodesExample()
    ensures TextOf([0x65, 0xe9]) == [0x65, 0xc3, 0xa9]
    ensures TextOf([0x20ac]) == [0xe2, 0x82, 0xac]
    ensures TextOf([1, 0x10ffff]) == [1, 0xf4, 0x8f, 0xbf, 0xbf]
  {
    assert TextOf([0xe9]) == Utf8(0xe9) + TextOf([]);
    assert TextOf([0x10ffff]) == Utf8(0x10ffff) + TextOf([]);
    assert [0x65, 0xe9][1..] == [0xe9] && [1, 0x10ffff][1..] == [0x10ffff];
  }

  predicate AreCodes(codes: seq<int>) {
    forall k {:trigger codes[k]} :: 0 <= k < |codes| ==> 0 < codes[k] < 0x110000
  }

  function TextOf(codes: seq<int>): (r: Word)
    requires AreCodes(codes)
    ensures if codes == [] then r == [] else r != [] && r[0] != 0
  {
    if codes == [] then [] else Utf8(codes[0]) + TextOf(codes[1..])
  }

  // Where the characters of such a text begin, when it stands at k.
  function CodeOffsets(codes: seq<int>, k: nat): (r: seq<nat>)
    requires AreCodes(codes)
    ensures |r| == |codes| && (codes != [] ==> r[0] == k)
  {
    if codes == [] then [] else [k] + CodeOffsets(codes[1..], k + |Utf8(codes[0])|)
  }

  lemma CodeIsRead(w: Word, k: nat, c: int, rest: Word)
    requires 0 < c < 0x110000 && (rest != [] ==> rest[0] != 0)
    requires k <= |w| && w[k..] == Utf8(c) + rest
    ensures NextUtf8Char(w, k) == if rest == [] then None else Some(k + |Utf8(c)|)
    ensures k + |Utf8(c)| <= |w| && w[k + |Utf8(c)|..] == rest
  {
    var r, t := Utf8(c), w[k..];
    assert forall i {:trigger r[i]} :: 0 <= i < |r| ==> w[k + i] == t[i] == r[i];
    assert rest != [] ==> w[k + |r|] == t[|r|] == rest[0];
    assert w[k + |r|..] == t[|r|..];
  }

  // The starts in a text in UTF-8 are the offsets of its characters.
  lemma {:induction false} StartsAreOffsets(w: Word, k: nat, codes: seq<int>)
    requires AreCodes(codes) && codes != [] && k <= |w| && w[k..] == TextOf(codes)
    ensures Starts(w, k) == CodeOffsets(codes, k)
    decreases |codes|
  {
    var next := k + |Utf8(codes[0])|;
    CodeIsRead(w, k, codes[0], TextOf(codes[1..]));
    if |codes| > 1 {
      StartsAreOffsets(w, next, codes[1..]);
    }
    FirstOffset(w, k, codes, next);
  }

  lemma FirstOffset(w: Word, k: nat, codes: seq<int>, next: nat)
    requires AreCodes(codes) && codes != [] && next == k + |Utf8(codes[0])|
    requires NextUtf8Char(w, k) == if |codes| == 1 then None else Some(next)
    requires |codes| > 1 ==> Starts(w, next) == CodeOffsets(codes[1..], next)
    ensures Starts(w, k) == CodeOffsets(codes, k)
  {
  }

  method NumUtf8Chars(w: Word) returns (n: nat)
    ensures n == |Starts(w, 0)|
  {
    n := 0;
    var r := Some(0);
    while r.Some?
      invariant n <= |Starts(w, 0)|
      invariant r == if n < |Starts(w, 0)| then Some(Starts(w, 0)[n]) else None
      decreases |Starts(w, 0)| - n
    {
      StartsStep(w, 0, n);
      n := n + 1;
      r := NextUtf8Char(w, r.value);
    }
  }

  // The start of the last character but one.
  method LastButOne(w: Word) returns (start: nat)
    requires |Starts(w, 0)| >= 2
    ensures start == Starts(w, 0)[|Starts(w, 0)| - 2] && start <= |w|
  {
    var lenUtf8 := NumUtf8Chars(w);
    start := 0;
    var s, i := Some(0), 0;
    while s.Some?
      invariant 0 <= i <= lenUtf8
      invariant s == if i < lenUtf8 then Some(Starts(w, 0)[i]) else None
      invariant start <= |w| && (s.Some? ==> s.value <= |w|)
      invariant i > lenUtf8 - 2 ==> start == Starts(w, 0)[lenUtf8 - 2]
      decreases lenUtf8 - i
    {
      if i == lenUtf8 - 2 {
        start := s.value;
      }
      StartsStep(w, 0, i);
      s, i := NextUtf8Char(w, s.value), i + 1;
    }
  }

  // ----- break positions -------------------------------------------------------

  // A position within the word that leaves two characters on each side.
  predicate LeavesTwo(word: Word, p: int) {
    var starts := Starts(word, 0);
    |starts| >= 3 && starts[2] <= p <= starts[|starts| - 2]
  }

  // Words of one or two characters are not restricted by the source.
  ghost predicate IsBreak(list: seq<DataEntry>, word: Word, p: int) {
    && 1 <= p <= |word|
    && (|Starts(word, 0)| >= 3 ==> LeavesTwo(word, p))
    && exists v :: IsLevel(list, Dotted(word), p + 1, v) && v % 2 == 1
  }

  // In the word between two dots, e is found at s and has a digit before position p of the word.
  ghost predicate HasDigitAt(list: seq<DataEntry>, word: Word, e: DataEntry, s: nat, p: nat) {
    e in list && Speaks(list, Dotted(word), p + 1, |word| + 2, |word| + 2, e, s)
  }

  lemma WhenDigitAt(list: seq<DataEntry>, word: Word, e: DataEntry, s: nat, p: nat)
    requires WellFormed(list)
    ensures HasDigitAt(list, word, e, s, p) <==>
              && e in list && e.key != [] && s <= p + 1 <= s + |e.key| <= |word| + 2
              && (['.' as int] + word + ['.' as int])[s..s + |e.key|] == e.key
    ensures HasDigitAt(list, word, e, s, p) ==> 0 <= p + 1 - s < |e.value| && Digit(e, p + 1 - s) == e.value[p + 1 - s] as int - '0' as int
  {
  }

  // A word may be broken exactly where the greatest of all these digits is odd, if this leaves two
  // characters on each side, or the word has less than three.
  lemma WhenBreak(list: seq<DataEntry>, word: Word, p: nat)
    requires WellFormed(list)
    ensures IsBreak(list, word, p) <==>
              && 1 <= p <= |word| && (|Starts(word, 0)| >= 3 ==> LeavesTwo(word, p))
              && exists e, s: nat {:trigger HasDigitAt(list, word, e, s, p)} ::
                   && HasDigitAt(list, word, e, s, p) && Digit(e, p + 1 - s) % 2 == 1
                   && forall e', s': nat {:trigger HasDigitAt(list, word, e', s', p)} :: HasDigitAt(list, word, e', s', p) ==> Digit(e', p + 1 - s') <= Digit(e, p + 1 - s)
  {
    if IsBreak(list, word, p) {
      var v :| IsLevel(list, Dotted(word), p + 1, v) && v % 2 == 1;
      var e, s := GreatestOfLevel(list, word, p, v);
    }
    if e, s: nat :| && HasDigitAt(list, word, e, s, p) && Digit(e, p + 1 - s) % 2 == 1
                    && forall e', s': nat {:trigger HasDigitAt(list, word, e', s', p)} :: HasDigitAt(list, word, e', s', p) ==> Digit(e', p + 1 - s') <= Digit(e, p + 1 - s) {
      LevelOfGreatest(list, word, p, e, s);
    }
  }

  lemma GreatestOfLevel(list: seq<DataEntry>, word: Word, p: nat, v: int) returns (e: DataEntry, s: nat)
    requires IsLevel(list, Dotted(word), p + 1, v) && v % 2 == 1
    ensures HasDigitAt(list, word, e, s, p) && Digit(e, p + 1 - s) == v
    ensures forall e', s': nat {:trigger HasDigitAt(list, word, e', s', p)} :: HasDigitAt(list, word, e', s', p) ==> Digit(e', p + 1 - s') <= v
  {
    var n := |word| + 2;
    e, s :| Speaks(list, Dotted(word), p + 1, n, n, e, s) && Digit(e, p + 1 - s) == v;
  }

  lemma LevelOfGreatest(list: seq<DataEntry>, word: Word, p: nat, e: DataEntry, s: nat)
    requires WellFormed(list) && HasDigitAt(list, word, e, s, p)
    requires forall e', s': nat {:trigger HasDigitAt(list, word, e', s', p)} :: HasDigitAt(list, word, e', s', p) ==> Digit(e', p + 1 - s') <= Digit(e, p + 1 - s)
    ensures IsLevel(list, Dotted(word), p + 1, Digit(e, p + 1 - s))
  {
    var n := |word| + 2;
    WhenDigitAt(list, word, e, s, p);
    assert forall e', s': nat {:trigger Speaks(list, Dotted(word), p + 1, n, n, e', s')} ::
        Speaks(list, Dotted(word), p + 1, n, n, e', s') ==> HasDigitAt(list, word, e', s', p);
  }

  // In a word in UTF-8, the positions between characters that leave two on each side are those
  // from the second one to the last but one.
  lemma WhenLeavesTwo(word: Word, codes: seq<int>, j: nat)
    requires AreCodes(codes) && j < |codes| && word == TextOf(codes) && j < |CodeOffsets(codes, 0)|
    ensures |CodeOffsets(codes, 0)| == |codes|
    ensures LeavesTwo(word, CodeOffsets(codes, 0)[j]) <==> |codes| >= 3 && 2 <= j <= |codes| - 2
  {
    assert word[0..] == word;
    StartsAreOffsets(word, 0, codes);
    OffsetsGrow(codes, 0);
  }

  lemma {:induction false} OffsetsGrow(codes: seq<int>, k: nat)
    requires AreCodes(codes)
    ensures forall i, j {:trigger CodeOffsets(codes, k)[i], CodeOffsets(codes, k)[j]} :: 0 <= i < j < |codes| ==>
              k <= CodeOffsets(codes, k)[i] < CodeOffsets(codes, k)[j]
    decreases |codes|
  {
    if codes != [] {
      var n := k + |Utf8(codes[0])|;
      OffsetsGrow(codes[1..], n);
      FirstThenRest(CodeOffsets(codes, k), CodeOffsets(codes[1..], n), k, n);
    }
  }

  lemma FirstThenRest(all: seq<nat>, rest: seq<nat>, k: nat, n: nat)
    requires all == [k] + rest && k < n
    requires (forall i, j {:trigger rest[i], rest[j]} :: 0 <= i < j < |rest| ==> n <= rest[i] < rest[j]) && (rest != [] ==> rest[0] == n)
    ensures forall i, j {:trigger all[i], all[j]} :: 0 <= i < j < |all| ==> k <= all[i] < all[j]
  {
    forall i, j {:trigger all[i], all[j]} | 0 <= i < j < |all| ensures k <= all[i] < all[j] {
      assert all[j] == rest[j - 1] && (i > 0 ==> all[i] == rest[i - 1]);
      assert j > 1 ==> rest[0] < rest[j - 1];
    }
  }

  // Clear the levels of positions too close to the ends.
  method ClearEnds(word: Word, points0: seq<int>) returns (points: seq<int>)
    requires |points0| == |word| + 3
    ensures |points| == |points0|
    ensures forall q {:trigger points[q]} :: 2 <= q <= |word| + 1 ==>
              points[q] == if |Starts(word, 0)| < 3 || LeavesTwo(word, q - 1) then points0[q] else 0
  {
    points := points0;
    var s := NextUtf8Char(word, 0);
    StartsStep(word, 0, 0);
    if s.Some? {
      StartsStep(word, 0, 1);
      s := NextUtf8Char(word, s.value);
      if s.Some? {
        var bytesStart := s.value;
        for i := 0 to bytesStart
          invariant |points| == |points0|
          invariant forall k :: 0 <= k < |points| ==> points[k] == if 1 <= k <= i then 0 else points0[k]
        {
          points := points[i + 1 := 0];
        }
        var last := LastButOne(word);
        var bytesEnd := |word| - last;
        for i := 0 to bytesEnd
          invariant |points| == |points0|
          invariant forall k :: 0 <= k < |points| ==>
                      points[k] == if 1 <= k <= bytesStart || |points| - 2 - i < k <= |points| - 2 then 0 else points0[k]
        {
          points := points[|points| - 2 - i := 0];
        }
      }
    }
  }

  ghost predicate StrictlyIncreasing(s: seq<int>) {
    forall i, j :: 0 <= i < j < |s| ==> s[i] < s[j]
  }

  datatype Hyphenator = Hyphenator(trie: Option<seq<TrieNode>>, exceptions: Option<map<Word, seq<int>>>)

  // The trie of a hyphenator, if any, was built from these patterns.
  ghost predicate BuiltFrom(h: Hyphenator, list: seq<DataEntry>) {
    h.trie.Some? ==>
      Closed(h.trie.value) && Represents(h.trie.value, list) && WellFormed(list) && Distinct(list)
  }

  method AppendException(known: seq<int>, offset: int, breakPos0: seq<int>) returns (breakPos: seq<int>)
    ensures |breakPos| == |breakPos0| + |known| && breakPos[..|breakPos0|] == breakPos0
    ensures forall i :: 0 <= i < |known| ==> breakPos[|breakPos0|..][i] == known[i] + offset
  {
    breakPos := breakPos0;
    for i := 0 to |known|
      invariant |breakPos| == |breakPos0| + i && breakPos[..|breakPos0|] == breakPos0
      invariant forall k :: 0 <= k < i ==> breakPos[|breakPos0| + k] == known[k] + offset
    {
      breakPos := breakPos + [known[i] + offset];
    }
  }

  method HyphenateByPatterns(trie: seq<TrieNode>, ghost list: seq<DataEntry>, wordLc: Word, offset: int, breakPos0: seq<int>)
    returns (breakPos: seq<int>)
    requires Closed(trie) && Represents(trie, list) && WellFormed(list) && Distinct(list)
    ensures |breakPos| >= |breakPos0| && breakPos[..|breakPos0|] == breakPos0
    ensures StrictlyIncreasing(breakPos[|breakPos0|..])
    ensures forall x :: x in breakPos[|breakPos0|..] <==> IsBreak(list, wordLc, x - offset)
  {
    var levels := ComputeLevels(trie, list, Dotted(wordLc));
    var points := ClearEnds(wordLc, levels);
    OddIsBreak(list, wordLc, levels, points);
    breakPos := SelectOdd(list, wordLc, offset, points, breakPos0);
  }

  method HyphenateSingleWord(h: Hyphenator, ghost list: seq<DataEntry>, wordLc: Word, offset: int, breakPos0: seq<int>)
    returns (breakPos: seq<int>)
    requires BuiltFrom(h, list)
    ensures |breakPos| >= |breakPos0| && breakPos[..|breakPos0|] == breakPos0
    ensures var found := breakPos[|breakPos0|..];
            if h.exceptions.Some? && wordLc in h.exceptions.value then
              var known := h.exceptions.value[wordLc];
              |found| == |known| && forall i :: 0 <= i < |known| ==> found[i] == known[i] + offset
            else if h.trie.None? then found == []
            else
              && (forall i, j :: 0 <= i < j < |found| ==> found[i] < found[j])
              && forall x :: x in found <==> IsBreak(list, wordLc, x - offset)
  {
    if h.exceptions.Some? && wordLc in h.exceptions.value {
      breakPos := AppendException(h.exceptions.value[wordLc], offset, breakPos0);
    } else if h.trie.None? {
      breakPos := breakPos0;
    } else {
      breakPos := HyphenateByPatterns(h.trie.value, list, wordLc, offset, breakPos0);
    }
  }

  lemma BreakIsOddLevel(list: seq<DataEntry>, word: Word, p: nat, v: int)
    requires 1 <= p <= |word| && IsLevel(list, Dotted(word), p + 1, v)
    ensures IsBreak(list, word, p) <==> v % 2 == 1 && (|Starts(word, 0)| >= 3 ==> LeavesTwo(word, p))
  {
    forall v' {:trigger IsLevel(list, Dotted(word), p + 1, v')} | IsLevel(list, Dotted(word), p + 1, v') ensures v' == v {
      LevelIsUnique(list, Dotted(word), p + 1, v, v');
    }
  }

  lemma OddIsBreak(list: seq<DataEntry>, word: Word, levels: seq<int>, points: seq<int>)
    requires AllMaximal(list, Dotted(word), levels, |word| + 2, |word| + 2) && |points| == |levels| == |word| + 3
    requires forall q {:trigger points[q]} :: 2 <= q <= |word| + 1 ==>
               points[q] == if |Starts(word, 0)| < 3 || LeavesTwo(word, q - 1) then levels[q] else 0
    ensures forall q {:trigger points[q]} :: 2 <= q <= |word| + 1 ==> (points[q] % 2 == 1 <==> IsBreak(list, word, q - 1))
  {
    forall q {:trigger points[q]} | 2 <= q <= |word| + 1 ensures points[q] % 2 == 1 <==> IsBreak(list, word, q - 1) {
      BreakIsOddLevel(list, word, q - 1, levels[q]);
    }
  }

  method SelectOdd(ghost list: seq<DataEntry>, word: Word, offset: int, points: seq<int>, breakPos0: seq<int>)
    returns (breakPos: seq<int>)
    requires |points| == |word| + 3
    requires forall q {:trigger points[q]} :: 2 <= q <= |word| + 1 ==>
               (points[q] % 2 == 1 <==> IsBreak(list, word, q - 1))
    ensures |breakPos| >= |breakPos0| && breakPos[..|breakPos0|] == breakPos0
    ensures StrictlyIncreasing(breakPos[|breakPos0|..])
    ensures forall x :: x in breakPos[|breakPos0|..] <==> IsBreak(list, word, x - offset)
  {
    ghost var found := [];
    breakPos := breakPos0;
    var n := Min(|word|, |points| - 2);
    for i := 0 to n
      invariant breakPos == breakPos0 + found
      invariant StrictlyIncreasing(found) && forall k :: 0 <= k < |found| ==> found[k] <= i + offset
      invariant forall x :: x in found <==> x - offset <= i && IsBreak(list, word, x - offset)
    {
      if points[i + 2] % 2 == 1 {
        breakPos := breakPos + [i + 1 + offset];
        found := found + [i + 1 + offset];
      }
    }
    assert breakPos[|breakPos0|..] == found;
  }

  // Whatever the patterns are, breaks leave two characters on each side: this holds
  // exactly for the words that have three characters or more.
  lemma BreaksLeaveTwo(word: Word)
    ensures (forall list, p: int :: WellFormed(list) && Distinct(list) && IsBreak(list, word, p) ==> LeavesTwo(word, p))
            <==> word == [] || |Starts(word, 0)| >= 3
  {
    if word != [] && |Starts(word, 0)| < 3 {
      var e := DataEntry([word[0]], "01");
      var list := [e];
      var work := Dotted(word);
      assert EntryFormed(e) && WellFormed(list) && Distinct(list);
      assert work[1..2] == [word[0]];
      assert Speaks(list, work, 2, |work|, |work|, e, 1) && Digit(e, 1) == 1;
      assert IsLevel(list, work, 2, 1);
      BreakIsOddLevel(list, word, 1, 1);
      assert IsBreak(list, word, 1) && !LeavesTwo(word, 1);
    }
  }

  // ----- loading patterns: dw/hyphenator.cc:69-87 --------------------------------

  predicate IsComment(line: Word) {
    line != [] && line[0] == 37
  }

  function Patterns(lines: seq<Word>): seq<DataEntry> {
    if lines == [] then []
    else
      var n := |lines| - 1;
      if IsComment(lines[n]) then Patterns(lines[..n]) else Patterns(lines[..n]) + [Pattern(lines[n])]
  }

  lemma {:induction false} PatternsFormed(lines: seq<Word>)
    ensures WellFormed(Patterns(lines))
  {
    if lines != [] {
      PatternsFormed(lines[..|lines| - 1]);
    }
  }

  // A line is left out exactly if it begins with "%".
  lemma PatternsStep(lines: seq<Word>, line: Word)
    ensures Patterns(lines + [line]) == Patterns(lines) + if line != [] && line[0] == '%' as int then [] else [DataEntry(Letters(line), Points(line))]
  {
    assert (lines + [line])[..|lines|] == lines;
  }

  method LoadPatterns(lines: seq<Word>, pack: int) returns (trie: seq<TrieNode>)
    requires forall line :: line in lines ==> 0 !in line
    ensures Closed(trie)
    ensures |trie| <= NEXT_LIMIT + 255 && Distinct(Patterns(lines)) ==>
              forall exceptions :: BuiltFrom(Hyphenator(Some(trie), exceptions), Patterns(lines))
  {
    var builder := new TrieBuilder(pack);
    for i := 0 to |lines|
      invariant fresh(builder) && builder.Collecting()
      invariant builder.dataList == Patterns(lines[..i])
    {
      assert lines[..i + 1][..i] == lines[..i];
      if !IsComment(lines[i]) {
        InsertPattern(builder, lines[i]);
      }
    }
    assert lines[..|lines|] == lines;
    PatternsFormed(lines);
    trie := builder.CreateTrie();
  }

  // ----- exceptions: dw/hyphenator.cc:184-206 ------------------------------------

  // The soft hyphen in UTF-8.
  const SHY: Word := [0xc2, 0xad]

  predicate ShyAt(s: Word, i: nat) {
    i + 1 < |s| && s[i] == 0xc2 && s[i + 1] == 0xad
  }

  // The word without its soft hyphens ...
  function Stripped(s: Word): Word {
    if s == [] then [] else if ShyAt(s, 0) then Stripped(s[2..]) else [s[0]] + Stripped(s[1..])
  }

  // ... and where they were, if the first letter of s has index n.
  function ShyPositions(s: Word, n: int): seq<int> {
    if s == [] then []
    else if ShyAt(s, 0) then [n] + ShyPositions(s[2..], n)
    else ShyPositions(s[1..], n + 1)
  }

  method FindBreaks(s: Word) returns (breaks: seq<int>)
    ensures breaks == ShyPositions(s, 0)
  {
    breaks := [];
    var i := 0;
    while i < |s| - 1
      invariant 0 <= i <= |s|
      invariant var k := if i > 0 && ShyAt(s, i - 1) then i + 1 else i;
                breaks + ShyPositions(s[k..], k - 2 * |breaks|) == ShyPositions(s, 0)
    {
      if ShyAt(s, i) {
        breaks := breaks + [i - 2 * |breaks|];
        assert s[i..][2..] == s[i + 2..];
      } else if !(i > 0 && ShyAt(s, i - 1)) {
        assert s[i..][1..] == s[i + 1..];
      }
      i := i + 1;
    }
  }

  method RemoveHyphens(s: Word) returns (noHyphens: Word)
    ensures noHyphens == Stripped(s)
  {
    noHyphens := [];
    var i := 0;
    while i < |s|
      invariant 0 <= i <= |s|
      invariant noHyphens + Stripped(s[i..]) == Stripped(s)
    {
      if i < |s| - 1 && ShyAt(s, i) {
        assert s[i..][2..] == s[i + 2..];
        i := i + 2;
      } else {
        assert s[i..][1..] == s[i + 1..];
        noHyphens := noHyphens + [s[i]];
        i := i + 1;
      }
    }
  }

  method InsertException(exceptions0: map<Word, seq<int>>, s: Word) returns (exceptions: map<Word, seq<int>>)
    ensures exceptions == exceptions0[Stripped(s) := ShyPositions(s, 0)]
  {
    var breaks := FindBreaks(s);
    var noHyphens := RemoveHyphens(s);
    exceptions := exceptions0[noHyphens := breaks];
  }

  // A word written with soft hyphens between its parts.
  function Joined(parts: seq<Word>): Word
    requires parts != []
  {
    if |parts| == 1 then parts[0] else parts[0] + SHY + Joined(parts[1..])
  }

  function Concat(parts: seq<Word>): Word {
    if parts == [] then [] else parts[0] + Concat(parts[1..])
  }

  // The lengths of the proper prefixes of the parts.
  function Offsets(parts: seq<Word>, n: int): seq<int>
    requires parts != []
  {
    if |parts| == 1 then [] else [n + |parts[0]|] + Offsets(parts[1..], n + |parts[0]|)
  }

  // Reading an exception undoes writing it.
  lemma {:induction false} ExceptionRoundTrip(parts: seq<Word>, n: int)
    requires parts != []
    requires forall part, i: nat :: part in parts ==> !ShyAt(part, i)
    ensures Stripped(Joined(parts)) == Concat(parts)
    ensures ShyPositions(Joined(parts), n) == Offsets(parts, n)
    decreases |parts|, |parts[0]|
  {
    var first, s := parts[0], Joined(parts);
    if first != [] {
      var rest := [first[1..]] + parts[1..];
      assert s[1..] == Joined(rest);
      assert !ShyAt(first, 0);
      WithoutFirst(parts, rest);
      ExceptionRoundTrip(rest, n + 1);
      assert Concat(parts) == [first[0]] + Concat(rest);
    } else if |parts| > 1 {
      assert s == SHY + Joined(parts[1..]);
      assert s[2..] == Joined(parts[1..]);
      ExceptionRoundTrip(parts[1..], n);
    }
  }

  lemma WithoutFirst(parts: seq<Word>, rest: seq<Word>)
    requires parts != [] && parts[0] != [] && rest == [parts[0][1..]] + parts[1..]
    requires forall part, i: nat :: part in parts ==> !ShyAt(part, i)
    ensures forall part, i: nat :: part in rest ==> !ShyAt(part, i)
  {
    assert forall i: nat :: ShyAt(parts[0][1..], i) ==> ShyAt(parts[0], i + 1);
    assert forall part :: part in rest ==> part == parts[0][1..] || part in parts;
  }

  // The soft hyphen is the character U+00AD.
  lemma ShyIs()
    ensures SHY == Utf8(0xad)
  {
  }
}
