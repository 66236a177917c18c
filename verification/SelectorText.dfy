// `normalize_for_leakage` and the one-pass check that no normalised text is
// shared by the train and dev splits.
module SelectorText {
  import opened Wrappers
  import opened Unicode

  function Lowered(t: Tables, s: string): string {
    if s == "" then "" else Lowered(t, s[..|s| - 1]) + t.lower(s[|s| - 1])
  }

  /** White space, or nothing, before the next character. */
  predicate AtBreak(t: Tables, s: string) { s == "" || t.whitespace(s[|s| - 1]) }

  /** `word` continues the last of the words. */
  function Extend(words: seq<string>, word: string): seq<string> {
    if words == [] then [word] else words[..|words| - 1] + [words[|words| - 1] + word]
  }

  predicate Word(t: Tables, s: string) {
    s != "" && forall i :: 0 <= i < |s| ==> !t.whitespace(s[i])
  }

  /** The maximal runs of non-blank characters. */
  function Words(t: Tables, s: string): (r: seq<string>)
    ensures !AtBreak(t, s) ==> r != []
  {
    if s == "" then []
    else
      var n := |s| - 1;
      if t.whitespace(s[n]) then Words(t, s[..n])
      else if AtBreak(t, s[..n]) then Words(t, s[..n]) + [[s[n]]]
      else Extend(Words(t, s[..n]), [s[n]])
  }

  function Unwords(words: seq<string>): string {
    if words == [] then ""
    else if |words| == 1 then words[0]
    else Unwords(words[..|words| - 1]) + " " + words[|words| - 1]
  }

  /** The lower-cased words, joined by single spaces. */
  function NormalForm(t: Tables, value: string): string {
    Unwords(Words(t, Lowered(t, value)))
  }

  // ----- words

  lemma UnwordsExtend(words: seq<string>, c: char)
    requires words != []
    ensures Unwords(Extend(words, [c])) == Unwords(words) + [c]
  {
    var longer := Extend(words, [c]);
    if |words| > 1 {
      assert longer[..|longer| - 1] == words[..|words| - 1];
    }
  }

  lemma UnwordsAdd(words: seq<string>, word: string)
    ensures Unwords(words + [word]) == if words == [] then word else Unwords(words) + " " + word
  {
    assert (words + [word])[..|words|] == words;
  }

  lemma WordsSnoc(t: Tables, s: string, c: char)
    ensures Words(t, s + [c])
            == if t.whitespace(c) then Words(t, s)
               else if AtBreak(t, s) then Words(t, s) + [[c]]
               else Extend(Words(t, s), [c])
  {
    assert (s + [c])[..|s|] == s;
  }

  lemma {:induction false} WordsAreWords(t: Tables, s: string)
    ensures forall word <- Words(t, s) :: Word(t, word)
  {
    if s != "" {
      var front, c := s[..|s| - 1], s[|s| - 1];
      WordsAreWords(t, front);
      var words := Words(t, front);
      if !t.whitespace(c) && !AtBreak(t, front) {
        assert words[|words| - 1] in words;
        assert Word(t, words[|words| - 1] + [c]);
      }
    }
  }

  /** Add a run of characters to the words read so far. */
  function Add(t: Tables, s: string, run: string): seq<string> {
    if AtBreak(t, s) then Words(t, s) + [run] else Extend(Words(t, s), run)
  }

  /** After `run` has been read behind `s`, the last word is open. */
  ghost predicate RunRead(t: Tables, s: string, run: string, words: seq<string>, atBreak: bool) {
    words == Add(t, s, run) && !atBreak
  }

  /** A non-blank run starts a new word at a break, and continues the last word elsewhere. */
  lemma {:induction false} WordsRun(t: Tables, s: string, run: string)
    requires Word(t, run)
    ensures RunRead(t, s, run, Words(t, s + run), AtBreak(t, s + run))
  {
    var front, c := run[..|run| - 1], run[|run| - 1];
    assert run == front + [c];
    if front == "" {
      WordsRunStart(t, s, run, c);
    } else {
      WordsRun(t, s, front);
      WordsRunStep(t, s, front, c, s + front);
      assert s + run == s + front + [c];
    }
  }

  lemma WordsRunStart(t: Tables, s: string, run: string, c: char)
    requires !t.whitespace(c) && run == [c]
    ensures RunRead(t, s, run, Words(t, s + run), AtBreak(t, s + run))
  {
    WordsSnoc(t, s, c);
  }

  lemma WordsRunStep(t: Tables, s: string, front: string, c: char, whole: string)
    requires !t.whitespace(c) && RunRead(t, s, front, Words(t, whole), AtBreak(t, whole))
    ensures RunRead(t, s, front + [c], Words(t, whole + [c]), AtBreak(t, whole + [c]))
  {
    WordsSnoc(t, whole, c);
    AddMore(t, s, front, c);
  }

  lemma AddMore(t: Tables, s: string, run: string, c: char)
    ensures Extend(Add(t, s, run), [c]) == Add(t, s, run + [c])
  {
    if AtBreak(t, s) {
      assert (Words(t, s) + [run])[..|Words(t, s)|] == Words(t, s);
    } else {
      ExtendTwice(Words(t, s), run, [c]);
    }
  }

  lemma ExtendTwice(words: seq<string>, a: string, b: string)
    requires words != []
    ensures Extend(Extend(words, a), b) == Extend(words, a + b)
  {
    assert words[|words| - 1] + a + b == words[|words| - 1] + (a + b);
  }

  /** Reading joined words gives them back. */
  lemma {:induction false} WordsUnwords(t: Tables, words: seq<string>)
    requires t.whitespace(' ') && forall word <- words :: Word(t, word)
    ensures Words(t, Unwords(words)) == words
    ensures words != [] ==> !AtBreak(t, Unwords(words))
  {
    if words != [] {
      var n := |words| - 1;
      var last := words[n];
      assert last in words;
      assert words == words[..n] + [last];
      if n == 0 {
        WordsRun(t, "", last);
        assert "" + last == last;
      } else {
        assert forall word <- words[..n] :: word in words;
        WordsUnwords(t, words[..n]);
        OneMoreWord(t, Unwords(words[..n]), words[..n], last);
      }
    }
  }

  lemma OneMoreWord(t: Tables, s: string, words: seq<string>, last: string)
    requires t.whitespace(' ') && Word(t, last) && Words(t, s) == words
    ensures Words(t, s + " " + last) == words + [last] && !AtBreak(t, s + " " + last)
  {
    WordsSnoc(t, s, ' ');
    WordsRun(t, s + " ", last);
    assert AtBreak(t, s + " ");
  }

  // ----- lower case

  lemma {:induction false} LoweredConcat(t: Tables, a: string, b: string)
    ensures Lowered(t, a + b) == Lowered(t, a) + Lowered(t, b)
  {
    if b == "" {
      assert a + b == a;
    } else {
      var n := |b| - 1;
      LoweredConcat(t, a, b[..n]);
      assert (a + b)[..|a| + n] == a + b[..n];
    }
  }

  lemma LoweredOne(t: Tables, c: char)
    ensures Lowered(t, [c]) == t.lower(c)
  {
    assert [c][..0] == "";
  }

  lemma {:induction false} LoweredBreak(t: Tables, s: string)
    requires Sound(t)
    ensures AtBreak(t, Lowered(t, s)) <==> AtBreak(t, s)
  {
    if s != "" {
      var c := s[|s| - 1];
      var text := Lowered(t, s);
      assert text[|text| - 1] == t.lower(c)[|t.lower(c)| - 1];
      assert t.lower(c)[|t.lower(c)| - 1] in t.lower(c);
    }
  }

  function LoweredWords(t: Tables, words: seq<string>): seq<string> {
    seq(|words|, i requires 0 <= i < |words| => Lowered(t, words[i]))
  }

  lemma LoweredExtend(t: Tables, words: seq<string>, c: char)
    requires words != []
    ensures LoweredWords(t, Extend(words, [c])) == Extend(LoweredWords(t, words), t.lower(c))
  {
    LoweredConcat(t, words[|words| - 1], [c]);
    LoweredOne(t, c);
  }

  lemma LoweredAdd(t: Tables, words: seq<string>, c: char)
    ensures LoweredWords(t, words + [[c]]) == LoweredWords(t, words) + [t.lower(c)]
  {
    LoweredOne(t, c);
  }

  /** Lowering a text lowers its words and moves no break. */
  lemma {:induction false} WordsOfLowered(t: Tables, s: string)
    requires Sound(t)
    ensures Words(t, Lowered(t, s)) == LoweredWords(t, Words(t, s))
  {
    if s != "" {
      var n := |s| - 1;
      var front, c := s[..n], s[n];
      WordsOfLowered(t, front);
      LoweredBreak(t, front);
      LowerOf(t, c);
      if t.whitespace(c) {
        WordsSnoc(t, Lowered(t, front), c);
      } else {
        WordsRun(t, Lowered(t, front), t.lower(c));
        if AtBreak(t, front) {
          LoweredAdd(t, Words(t, front), c);
        } else {
          LoweredExtend(t, Words(t, front), c);
        }
      }
    }
  }

  lemma LowerOf(t: Tables, c: char)
    requires Sound(t)
    ensures if t.whitespace(c) then t.lower(c) == [c] else Word(t, t.lower(c))
  {
  }

  lemma {:induction false} LoweredFixed(t: Tables, s: string)
    requires forall c <- s :: t.lower(c) == [c]
    ensures Lowered(t, s) == s
  {
    if s != "" {
      LoweredFixed(t, s[..|s| - 1]);
      assert s[|s| - 1] in s;
    }
  }

  lemma {:induction false} LoweredIsFixed(t: Tables, s: string)
    requires Sound(t)
    ensures forall c <- Lowered(t, s) :: t.lower(c) == [c]
  {
    if s != "" {
      LoweredIsFixed(t, s[..|s| - 1]);
    }
  }

  lemma {:induction false} UnwordsChars(words: seq<string>, c: char)
    ensures c in Unwords(words) ==> c == ' ' || exists word :: word in words && c in word
  {
    if |words| == 1 {
      assert words[0] in words;
    } else if words != [] {
      UnwordsChars(words[..|words| - 1], c);
      assert words[|words| - 1] in words;
    }
  }

  lemma {:induction false} WordsChars(t: Tables, s: string, c: char)
    ensures (exists word :: word in Words(t, s) && c in word) ==> c in s
  {
    if s != "" {
      var front := s[..|s| - 1];
      WordsChars(t, front, c);
      if exists word :: word in Words(t, s) && c in word {
        var word :| word in Words(t, s) && c in word;
        var words := Words(t, front);
        if word !in words && words != [] {
          assert words[|words| - 1] in words;
        }
      }
    }
  }

  /** Normalising a normal form changes nothing. */
  lemma NormalFormIdempotent(t: Tables, value: string)
    requires Sound(t)
    ensures NormalForm(t, NormalForm(t, value)) == NormalForm(t, value)
  {
    var text := Lowered(t, value);
    var normal := Unwords(Words(t, text));
    forall c | c in normal
      ensures t.lower(c) == [c]
    {
      UnwordsChars(Words(t, text), c);
      WordsChars(t, text, c);
      LoweredIsFixed(t, value);
    }
    LoweredFixed(t, normal);
    WordsAreWords(t, text);
    WordsUnwords(t, Words(t, text));
  }

  /** Two texts have one normal form exactly when their lower-cased word sequences are equal. */
  lemma NormalFormsAgree(t: Tables, a: string, b: string)
    requires Sound(t)
    ensures NormalForm(t, a) == NormalForm(t, b) <==> LoweredWords(t, Words(t, a)) == LoweredWords(t, Words(t, b))
  {
    WordsOfLowered(t, a);
    WordsOfLowered(t, b);
    WordsAreWords(t, Lowered(t, a));
    WordsAreWords(t, Lowered(t, b));
    WordsUnwords(t, Words(t, Lowered(t, a)));
    WordsUnwords(t, Words(t, Lowered(t, b)));
  }

  // ----- the loop

  lemma {:induction false} TrimStartWords(t: Tables, s: string)
    requires Sound(t)
    ensures Words(t, Lowered(t, TrimStart(t, s))) == Words(t, Lowered(t, s))
  {
    if s != "" && t.whitespace(s[0]) {
      TrimStartWords(t, s[1..]);
      LoweredConcat(t, s[..1], s[1..]);
      LoweredOne(t, s[0]);
      assert s[..1] == [s[0]] && s == s[..1] + s[1..];
      LeadingBlank(t, s[0], Lowered(t, s[1..]));
    }
  }

  lemma {:induction false} LeadingBlank(t: Tables, c: char, s: string)
    requires t.whitespace(c)
    ensures Words(t, [c] + s) == Words(t, s) && (AtBreak(t, [c] + s) <==> AtBreak(t, s))
  {
    if s == "" {
      WordsSnoc(t, "", c);
      assert "" + [c] == [c] + s;
    } else {
      var n := |s| - 1;
      LeadingBlank(t, c, s[..n]);
      assert ([c] + s)[..n + 1] == [c] + s[..n];
    }
  }

  lemma {:induction false} TrimEndWords(t: Tables, s: string)
    requires Sound(t)
    ensures Words(t, Lowered(t, TrimEnd(t, s))) == Words(t, Lowered(t, s))
  {
    if s != "" && t.whitespace(s[|s| - 1]) {
      TrimEndWords(t, s[..|s| - 1]);
      WordsSnoc(t, Lowered(t, s[..|s| - 1]), s[|s| - 1]);
    }
  }

  /** What the loop has emitted after the characters `seen`, and whether it owes a space. */
  ghost predicate Emitted(t: Tables, seen: string, normalized: string, pendingSpace: bool) {
    && normalized == Unwords(Words(t, seen))
    && (normalized == "" <==> Words(t, seen) == [])
    && (pendingSpace <==> AtBreak(t, seen) && normalized != "")
  }

  lemma EmitBlank(t: Tables, seen: string, normalized: string, pendingSpace: bool, c: char)
    requires Emitted(t, seen, normalized, pendingSpace) && t.whitespace(c)
    ensures Emitted(t, seen + [c], normalized, normalized != "")
  {
    WordsSnoc(t, seen, c);
  }

  lemma EmitCharacter(t: Tables, seen: string, normalized: string, pendingSpace: bool, c: char)
    requires Emitted(t, seen, normalized, pendingSpace) && !t.whitespace(c)
    ensures Emitted(t, seen + [c], (if pendingSpace then normalized + " " else normalized) + [c], false)
  {
    WordsSnoc(t, seen, c);
    if AtBreak(t, seen) {
      UnwordsAdd(Words(t, seen), [c]);
    } else {
      UnwordsExtend(Words(t, seen), c);
    }
  }

  /** The loop over the lower-cased characters, with its pending space. */
  method Collapse(t: Tables, characters: string) returns (normalized: string)
    ensures normalized == Unwords(Words(t, characters))
  {
    normalized := "";
    var pendingSpace := false;
    var i := 0;
    while i < |characters|
      invariant 0 <= i <= |characters|
      invariant Emitted(t, characters[..i], normalized, pendingSpace)
    {
      var c := characters[i];
      ghost var seen := characters[..i];
      assert characters[..i + 1] == seen + [c];
      if t.whitespace(c) {
        EmitBlank(t, seen, normalized, pendingSpace, c);
        pendingSpace := normalized != "";
      } else {
        EmitCharacter(t, seen, normalized, pendingSpace, c);
        if pendingSpace {
          normalized := normalized + " ";
          pendingSpace := false;
        }
        normalized := normalized + [c];
      }
      i := i + 1;
    }
    assert characters[..i] == characters;
  }

  method NormalizeForLeakage(t: Tables, value: string) returns (normalized: string)
    requires Sound(t)
    ensures normalized == NormalForm(t, value)
  {
    normalized := Collapse(t, Lowered(t, Trim(t, value)));
    TrimStartWords(t, value);
    TrimEndWords(t, TrimStart(t, value));
  }

  // ----- the one-pass leak check

  datatype Split = Train | Dev

  type Observed = map<string, Split>

  /** `reject_cross_split_normalized_value`: insert, and compare with what was there before. */
  function Observe(observed: Observed, value: string, split: Split): Option<Observed> {
    if value in observed && observed[value] != split then None else Some(observed[value := split])
  }

  function ObserveAll(observed: Observed, entries: seq<(string, Split)>): Option<Observed> {
    if entries == [] then Some(observed)
    else
      match ObserveAll(observed, entries[..|entries| - 1])
      case None => None
      case Some(before) => Observe(before, entries[|entries| - 1].0, entries[|entries| - 1].1)
  }

  ghost predicate NoLeak(entries: seq<(string, Split)>) {
    forall i, j :: 0 <= i < j < |entries| && entries[i].0 == entries[j].0 ==> entries[i].1 == entries[j].1
  }

  /** The map records the split of every value seen. */
  ghost predicate Records(observed: Observed, entries: seq<(string, Split)>) {
    && (forall value <- observed :: exists i :: 0 <= i < |entries| && entries[i].0 == value)
    && (forall i :: 0 <= i < |entries| ==> entries[i].0 in observed && observed[entries[i].0] == entries[i].1)
  }

  lemma ObserveOne(observed: Observed, before: seq<(string, Split)>, entry: (string, Split))
    requires Records(observed, before)
    ensures Observe(observed, entry.0, entry.1).Some?
       <==> forall i :: 0 <= i < |before| && before[i].0 == entry.0 ==> before[i].1 == entry.1
    ensures Observe(observed, entry.0, entry.1).Some? ==>
              Records(Observe(observed, entry.0, entry.1).value, before + [entry])
  {
    if entry.0 in observed {
      var i :| 0 <= i < |before| && before[i].0 == entry.0;
    }
    if Observe(observed, entry.0, entry.1).Some? {
      var entries, after := before + [entry], Observe(observed, entry.0, entry.1).value;
      assert forall i :: 0 <= i < |before| ==> entries[i] == before[i];
      forall value | value in after
        ensures exists i :: 0 <= i < |entries| && entries[i].0 == value
      {
        if value in observed {
          var i :| 0 <= i < |before| && before[i].0 == value;
          assert entries[i].0 == value;
        } else {
          assert entries[|before|].0 == value;
        }
      }
    }
  }

  /** One pass with a map accepts exactly when no two entries of different splits have equal normal forms. */
  lemma {:induction false} OnePassIsPairwise(entries: seq<(string, Split)>)
    ensures ObserveAll(map[], entries).Some? <==> NoLeak(entries)
    ensures ObserveAll(map[], entries).Some? ==> Records(ObserveAll(map[], entries).value, entries)
  {
    if entries != [] {
      var n := |entries| - 1;
      var before := entries[..n];
      OnePassIsPairwise(before);
      assert entries == before + [entries[n]];
      assert NoLeak(entries)
             <==> NoLeak(before)
                  && forall i :: 0 <= i < n && before[i].0 == entries[n].0 ==> before[i].1 == entries[n].1
      by {
        assert forall i :: 0 <= i < n ==> before[i] == entries[i];
      }
      if ObserveAll(map[], before).Some? {
        ObserveOne(ObserveAll(map[], before).value, before, entries[n]);
      }
    }
  }
}
