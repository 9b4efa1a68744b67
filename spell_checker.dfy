/**
 * The spell-check pipeline over a HashTable<string, bool> dictionary:
 * Levenshtein distance by dynamic programming, whitespace tokenization with
 * a membership test per token, and the closest-key correction scan over
 * the dictionary's bucket vector.
 */
module SpellChecker {
  import opened Wrappers
  import opened Hashing

  // ---------------------------------------------------------------------
  // Edit distance
  // ---------------------------------------------------------------------

  function Min3(x: int, y: int, z: int): int
  {
    if x <= y && x <= z then x else if y <= z then y else z
  }

  /**
   * The recurrence the distances table is filled with: entry (i, j) is
   * the distance between the first i characters of `a` and the first j
   * characters of `b`.
   */
  ghost function Distance(a: string, b: string): nat
    decreases |a| + |b|
  {
    if |a| == 0 then |b|
    else if |b| == 0 then |a|
    else if a[|a| - 1] == b[|b| - 1] then Distance(a[..|a| - 1], b[..|b| - 1])
    else 1 + Min3(Distance(a[..|a| - 1], b), Distance(a, b[..|b| - 1]),
                  Distance(a[..|a| - 1], b[..|b| - 1]))
  }

  /** Cell (i, j) of the table in terms of its three neighbours. */
  lemma DistanceCell(a: string, b: string, i: nat, j: nat)
    requires 1 <= i <= |a| && 1 <= j <= |b|
    ensures Distance(a[..i], b[..j]) ==
      if a[i - 1] == b[j - 1] then Distance(a[..i - 1], b[..j - 1])
      else 1 + Min3(Distance(a[..i - 1], b[..j]), Distance(a[..i], b[..j - 1]),
                    Distance(a[..i - 1], b[..j - 1]))
  {
    assert a[..i][..i - 1] == a[..i - 1];
    assert b[..j][..j - 1] == b[..j - 1];
  }

  /** levenshtein_distance: fill the (|word1| + 1) x (|word2| + 1) table row by row. */
  method LevenshteinDistance(word1: string, word2: string) returns (d: int)
    ensures d == Distance(word1, word2)
  {
    var n1, n2 := |word1|, |word2|;
    var distances := new int[n1 + 1, n2 + 1];
    var i := 0;
    while i <= n1
      invariant 0 <= i <= n1 + 1
      invariant forall r :: 0 <= r < i ==> distances[r, 0] == r
    {
      distances[i, 0] := i;
      i := i + 1;
    }
    var j := 0;
    while j <= n2
      invariant 0 <= j <= n2 + 1
      invariant forall r :: 0 <= r <= n1 ==> distances[r, 0] == r
      invariant forall c :: 0 <= c < j ==> distances[0, c] == c
    {
      distances[0, j] := j;
      j := j + 1;
    }
    i := 1;
    while i <= n1
      invariant 1 <= i <= n1 + 1
      invariant forall c :: 0 <= c <= n2 ==> distances[i - 1, c] == Distance(word1[..i - 1], word2[..c])
      invariant forall r :: i <= r <= n1 ==> distances[r, 0] == r
    {
      FillRow(distances, word1, word2, i);
      i := i + 1;
    }
    assert word1[..n1] == word1 && word2[..n2] == word2;
    d := distances[n1, n2];
  }

  /** Fills row i of the table from row i - 1 and the cell to the left, column by column. */
  method FillRow(distances: array2<int>, word1: string, word2: string, i: int)
    requires distances.Length0 == |word1| + 1 && distances.Length1 == |word2| + 1 && 1 <= i <= |word1|
    requires forall c :: 0 <= c <= |word2| ==> distances[i - 1, c] == Distance(word1[..i - 1], word2[..c])
    requires distances[i, 0] == i
    modifies distances
    ensures forall c :: 0 <= c <= |word2| ==> distances[i, c] == Distance(word1[..i], word2[..c])
    ensures forall r, c :: 0 <= r <= |word1| && r != i && 0 <= c <= |word2| ==> distances[r, c] == old(distances[r, c])
  {
    var j := 1;
    while j <= |word2|
      invariant 1 <= j <= |word2| + 1
      invariant forall c :: 0 <= c < j ==> distances[i, c] == Distance(word1[..i], word2[..c])
      invariant forall r, c :: 0 <= r <= |word1| && r != i && 0 <= c <= |word2| ==> distances[r, c] == old(distances[r, c])
    {
      DistanceCell(word1, word2, i, j);
      if word1[i - 1] == word2[j - 1] {
        distances[i, j] := distances[i - 1, j - 1];
      } else {
        distances[i, j] := 1 + Min3(distances[i - 1, j], distances[i, j - 1], distances[i - 1, j - 1]);
      }
      j := j + 1;
    }
  }

  /** A word is at distance 0 from itself: equal characters copy the diagonal. */
  lemma {:induction false} DistanceSelf(a: string)
    ensures Distance(a, a) == 0
    decreases |a|
  {
    if |a| > 0 {
      DistanceSelf(a[..|a| - 1]);
    }
  }

  /** Distance 0 only between equal words. */
  lemma {:induction false} DistanceZeroMeansEqual(a: string, b: string)
    requires Distance(a, b) == 0
    ensures a == b
    decreases |a| + |b|
  {
    if |a| > 0 && |b| > 0 {
      DistanceZeroMeansEqual(a[..|a| - 1], b[..|b| - 1]);
      assert a == a[..|a| - 1] + [a[|a| - 1]];
      assert b == b[..|b| - 1] + [b[|b| - 1]];
    }
  }

  /** The table is symmetric: swapping the words transposes it. */
  lemma {:induction false} DistanceSymmetric(a: string, b: string)
    ensures Distance(a, b) == Distance(b, a)
    decreases |a| + |b|
  {
    if |a| > 0 && |b| > 0 {
      var a', b' := a[..|a| - 1], b[..|b| - 1];
      DistanceSymmetric(a', b');
      if a[|a| - 1] != b[|b| - 1] {
        DistanceSymmetric(a', b);
        DistanceSymmetric(a, b');
      }
    }
  }

  /**
   * The distance is at least the difference of the lengths and at most
   * the longer length; against the empty word it is the other's length.
   */
  lemma {:induction false} DistanceBounds(a: string, b: string)
    ensures |a| - |b| <= Distance(a, b) && |b| - |a| <= Distance(a, b)
    ensures Distance(a, b) <= if |a| <= |b| then |b| else |a|
    decreases |a| + |b|
  {
    if |a| > 0 && |b| > 0 {
      var a', b' := a[..|a| - 1], b[..|b| - 1];
      DistanceBounds(a', b');
      if a[|a| - 1] != b[|b| - 1] {
        DistanceBounds(a', b);
        DistanceBounds(a, b');
      }
    }
  }

  /**
   * The textbook example of the Levenshtein distance: "kitten" becomes
   * "sitting" by two substitutions and one insertion, and by no fewer edits.
   */
  lemma KittenSitting()
    ensures Distance("kitten", "sitting") == 3
  {
    KittenSittingShape('k', 'i', 't', 'e', 'n', 's', 'g');
  }

  /**
   * The same table for any letters in the pattern of "kitten" and "sitting"
   * (the requires say which letters differ), filled row by row after the
   * prefixes it needs are named.
   */
  lemma KittenSittingShape(k: char, i: char, t: char, e: char, n: char, s: char, g: char)
    requires k != s && k != i && k != t && k != n && k != g
    requires i != s && i != t && i != n && i != g
    requires t != s && t != n && t != g
    requires e != s && e != i && e != t && e != n && e != g
    requires n != s && n != g
    ensures Distance([k, i, t, t, e, n], [s, i, t, t, i, n, g]) == 3
  {
    assert [s, i, t][..2] == [s, i];
    assert [s, i, t, t][..3] == [s, i, t];
    assert [s, i, t, t, i][..4] == [s, i, t, t];
    assert [s, i, t, t, i, n][..5] == [s, i, t, t, i];
    assert [s, i, t, t, i, n, g][..6] == [s, i, t, t, i, n];
    assert [k, i, t][..2] == [k, i];
    assert [k, i, t, t][..3] == [k, i, t];
    assert [k, i, t, t, e][..4] == [k, i, t, t];
    assert [k, i, t, t, e, n][..5] == [k, i, t, t, e];
    assert Distance([k], [s]) == 1;
    assert Distance([k], [s, i]) == 2;
    assert Distance([k], [s, i, t]) == 3;
    assert Distance([k], [s, i, t, t]) == 4;
    assert Distance([k], [s, i, t, t, i]) == 5;
    assert Distance([k], [s, i, t, t, i, n]) == 6;
    assert Distance([k], [s, i, t, t, i, n, g]) == 7;
    assert Distance([k, i], [s]) == 2;
    assert Distance([k, i], [s, i]) == 1;
    assert Distance([k, i], [s, i, t]) == 2;
    assert Distance([k, i], [s, i, t, t]) == 3;
    assert Distance([k, i], [s, i, t, t, i]) == 4;
    assert Distance([k, i], [s, i, t, t, i, n]) == 5;
    assert Distance([k, i], [s, i, t, t, i, n, g]) == 6;
    assert Distance([k, i, t], [s]) == 3;
    assert Distance([k, i, t], [s, i]) == 2;
    assert Distance([k, i, t], [s, i, t]) == 1;
    assert Distance([k, i, t], [s, i, t, t]) == 2;
    assert Distance([k, i, t], [s, i, t, t, i]) == 3;
    assert Distance([k, i, t], [s, i, t, t, i, n]) == 4;
    assert Distance([k, i, t], [s, i, t, t, i, n, g]) == 5;
    assert Distance([k, i, t, t], [s]) == 4;
    assert Distance([k, i, t, t], [s, i]) == 3;
    assert Distance([k, i, t, t], [s, i, t]) == 2;
    assert Distance([k, i, t, t], [s, i, t, t]) == 1;
    assert Distance([k, i, t, t], [s, i, t, t, i]) == 2;
    assert Distance([k, i, t, t], [s, i, t, t, i, n]) == 3;
    assert Distance([k, i, t, t], [s, i, t, t, i, n, g]) == 4;
    assert Distance([k, i, t, t, e], [s]) == 5;
    assert Distance([k, i, t, t, e], [s, i]) == 4;
    assert Distance([k, i, t, t, e], [s, i, t]) == 3;
    assert Distance([k, i, t, t, e], [s, i, t, t]) == 2;
    assert Distance([k, i, t, t, e], [s, i, t, t, i]) == 2;
    assert Distance([k, i, t, t, e], [s, i, t, t, i, n]) == 3;
    assert Distance([k, i, t, t, e], [s, i, t, t, i, n, g]) == 4;
    assert Distance([k, i, t, t, e, n], [s]) == 6;
    assert Distance([k, i, t, t, e, n], [s, i]) == 5;
    assert Distance([k, i, t, t, e, n], [s, i, t]) == 4;
    assert Distance([k, i, t, t, e, n], [s, i, t, t]) == 3;
    assert Distance([k, i, t, t, e, n], [s, i, t, t, i]) == 3;
    assert Distance([k, i, t, t, e, n], [s, i, t, t, i, n]) == 2;
    assert Distance([k, i, t, t, e, n], [s, i, t, t, i, n, g]) == 3;
  }

  // ---------------------------------------------------------------------
  // Tokens
  // ---------------------------------------------------------------------

  /** The characters isspace accepts in the C locale: space, \t, \n, \v, \f, \r. */
  predicate IsSpace(c: char)
  {
    c == ' ' || 9 <= c as int <= 13
  }

  predicate IsWord(w: string)
  {
    |w| > 0 && forall i :: 0 <= i < |w| ==> !IsSpace(w[i])
  }

  /** Length of the run of non-space characters at the front of `s`. */
  function WordLength(s: string): (n: nat)
    ensures n <= |s|
    ensures forall i :: 0 <= i < n ==> !IsSpace(s[i])
    ensures n < |s| ==> IsSpace(s[n])
    decreases |s|
  {
    if s == [] || IsSpace(s[0]) then 0 else 1 + WordLength(s[1..])
  }

  /** The words `istringstream >> word` extracts from `s`, left to right. */
  ghost function Tokens(s: string): seq<string>
    decreases |s|
  {
    if s == [] then []
    else if IsSpace(s[0]) then Tokens(s[1..])
    else
      var n := WordLength(s);
      [s[..n]] + Tokens(s[n..])
  }

  /** Every extracted token is non-empty and free of whitespace. */
  lemma {:induction false} TokensAreWords(s: string)
    ensures forall t :: t in Tokens(s) ==> IsWord(t)
    decreases |s|
  {
    if s != [] {
      if IsSpace(s[0]) {
        TokensAreWords(s[1..]);
      } else {
        TokensAreWords(s[WordLength(s)..]);
      }
    }
  }

  /** A word followed by a separator (or by nothing) is extracted whole. */
  lemma {:induction false} TokensOfWordThen(w: string, s: string)
    requires IsWord(w) && (s == [] || IsSpace(s[0]))
    ensures Tokens(w + s) == [w] + Tokens(s)
    decreases |w|
  {
    var x := w + s;
    WordLengthOfWordThen(w, s);
    assert x[..|w|] == w;
    assert x[|w|..] == s;
  }

  lemma {:induction false} WordLengthOfWordThen(w: string, s: string)
    requires forall i :: 0 <= i < |w| ==> !IsSpace(w[i])
    requires s == [] || IsSpace(s[0])
    ensures WordLength(w + s) == |w|
    decreases |w|
  {
    if w != [] {
      assert (w + s)[1..] == w[1..] + s;
      WordLengthOfWordThen(w[1..], s);
    }
  }

  /** Words separated by single spaces. */
  function Unwords(ws: seq<string>): string
    decreases |ws|
  {
    if ws == [] then "" else if |ws| == 1 then ws[0] else ws[0] + " " + Unwords(ws[1..])
  }

  /** Tokenization inverts joining words with spaces. */
  lemma {:induction false} TokensOfUnwords(ws: seq<string>)
    requires forall i :: 0 <= i < |ws| ==> IsWord(ws[i])
    ensures Tokens(Unwords(ws)) == ws
    decreases |ws|
  {
    if |ws| == 1 {
      TokensOfWordThen(ws[0], "");
      assert ws[0] + "" == ws[0];
    } else if |ws| > 1 {
      var rest := " " + Unwords(ws[1..]);
      TokensOfUnwords(ws[1..]);
      assert Unwords(ws) == ws[0] + rest;
      TokensOfWordThen(ws[0], rest);
      assert rest[1..] == Unwords(ws[1..]);
      assert ws == [ws[0]] + ws[1..];
    }
  }

  // ---------------------------------------------------------------------
  // spell_check
  // ---------------------------------------------------------------------

  /** A word the dictionary knows: get(word) returns true. */
  ghost predicate Known(c: map<string, bool>, w: string)
  {
    w in c && c[w]
  }

  /** The words of `ws` for which get returns false, in order, duplicates kept. */
  ghost function Unknown(ws: seq<string>, c: map<string, bool>): seq<string>
    decreases |ws|
  {
    if ws == [] then []
    else
      var w := ws[|ws| - 1];
      Unknown(ws[..|ws| - 1], c) + (if Known(c, w) then [] else [w])
  }

  /** A word is reported iff it occurs among the words and the dictionary does not know it. */
  lemma {:induction false} UnknownMembers(ws: seq<string>, c: map<string, bool>)
    ensures |Unknown(ws, c)| <= |ws|
    ensures forall w :: w in Unknown(ws, c) <==> w in ws && !Known(c, w)
    decreases |ws|
  {
    if ws != [] {
      UnknownMembers(ws[..|ws| - 1], c);
      assert ws == ws[..|ws| - 1] + [ws[|ws| - 1]];
    }
  }

  /**
   * When every stored value is true, as load_dictionary and
   * add_word_to_dictionary store them, a word is reported iff it is not a
   * key of the table.
   */
  lemma AllTrueUnknownMeansAbsent(ws: seq<string>, c: map<string, bool>)
    requires forall k :: k in c ==> c[k]
    ensures forall w :: w in Unknown(ws, c) <==> w in ws && w !in c
  {
    UnknownMembers(ws, c);
  }

  /** A separator in front of the rest is skipped. */
  lemma TokensSkipSpace(text: string, i: int)
    requires 0 <= i < |text| && IsSpace(text[i])
    ensures Tokens(text[i..]) == Tokens(text[i + 1..])
  {
    assert text[i..][1..] == text[i + 1..];
  }

  /** A whole word in front of the rest is extracted first. */
  lemma TokensTakeWord(text: string, i: int, j: int)
    requires 0 <= i < j <= |text|
    requires forall k :: i <= k < j ==> !IsSpace(text[k])
    requires j < |text| ==> IsSpace(text[j])
    ensures Tokens(text[i..]) == [text[i..j]] + Tokens(text[j..])
  {
    assert text[i..] == text[i..j] + text[j..];
    TokensOfWordThen(text[i..j], text[j..]);
  }

  /** Moving the first word of the rest to the end of the words seen so far. */
  lemma Regroup<T>(seen: seq<T>, w: T, rest: seq<T>, tail: seq<T>)
    requires rest == [w] + tail
    ensures seen + rest == (seen + [w]) + tail
  {
  }

  /** `istringstream >> word`'s scan: the end of the run of non-space characters starting at i. */
  method WordEnd(text: string, i: int) returns (j: int)
    requires 0 <= i < |text| && !IsSpace(text[i])
    ensures i < j <= |text|
    ensures forall k :: i <= k < j ==> !IsSpace(text[k])
    ensures j < |text| ==> IsSpace(text[j])
  {
    j := i;
    while j < |text| && !IsSpace(text[j])
      invariant i <= j <= |text|
      invariant forall k :: i <= k < j ==> !IsSpace(text[k])
    {
      j := j + 1;
    }
  }

  /** Reporting one more word extends the report by it exactly when the dictionary does not know it. */
  lemma UnknownSnoc(ws: seq<string>, w: string, c: map<string, bool>)
    ensures Unknown(ws + [w], c) == Unknown(ws, c) + (if Known(c, w) then [] else [w])
  {
    assert (ws + [w])[..|ws|] == ws;
  }

  /** The body of spell_check's loop for one extracted word: append it when get returns false. */
  method CheckWord(word: string, dictionary: HashTable<bool>, misspelled: seq<string>) returns (r: seq<string>)
    requires dictionary.Valid() && dictionary.Default == false
    ensures r == misspelled + (if Known(dictionary.Contents, word) then [] else [word])
  {
    var found := dictionary.Get(word);
    if !found {
      r := misspelled + [word];
    } else {
      r := misspelled;
    }
  }

  /**
   * spell_check: extract the words of `text` one by one and keep those
   * whose get is false.
   */
  method SpellCheck(text: string, dictionary: HashTable<bool>) returns (misspelled: seq<string>)
    requires dictionary.Valid() && dictionary.Default == false
    ensures misspelled == Unknown(Tokens(text), dictionary.Contents)
  {
    misspelled := [];
    ghost var c := dictionary.Contents;
    ghost var seen: seq<string> := [];
    var i := 0;
    while i < |text|
      invariant 0 <= i <= |text|
      invariant Tokens(text) == seen + Tokens(text[i..])
      invariant misspelled == Unknown(seen, c)
    {
      if IsSpace(text[i]) {
        TokensSkipSpace(text, i);
        i := i + 1;
      } else {
        var j := WordEnd(text, i);
        var word := text[i..j];
        TokensTakeWord(text, i, j);
        misspelled := CheckWord(word, dictionary, misspelled);
        UnknownSnoc(seen, word, c);
        Regroup(seen, word, Tokens(text[i..]), Tokens(text[j..]));
        seen := seen + [word];
        i := j;
      }
    }
    assert Tokens(text[i..]) == [];
    assert seen + [] == seen;
  }

  // ---------------------------------------------------------------------
  // suggest_corrections
  // ---------------------------------------------------------------------

  /**
   * The candidate after scanning `es`: the key at strictly smallest
   * distance from `word`, the first such on ties, with that distance;
   * None before any entry is seen (best_distance still INT_MAX).
   */
  ghost function Best<V>(word: string, es: seq<Entry<V>>): Option<(string, nat)>
    decreases |es|
  {
    if es == [] then None
    else
      var prev := Best(word, es[..|es| - 1]);
      var k := es[|es| - 1].key;
      if prev.None? || Distance(word, k) < prev.value.1 then Some((k, Distance(word, k))) else prev
  }

  /** The pair emitted for `word`: only if the best distance is at most 2 and the best key non-empty. */
  ghost function Suggestion<V>(word: string, es: seq<Entry<V>>): Option<(string, string)>
  {
    match Best(word, es)
    case Some((k, d)) => if d <= 2 && k != "" then Some((word, k)) else None
    case None => None
  }

  /** The pairs emitted for the words `ws`, in their order. */
  ghost function Corrections<V>(ws: seq<string>, es: seq<Entry<V>>): seq<(string, string)>
    decreases |ws|
  {
    if ws == [] then []
    else
      var s := Suggestion(ws[|ws| - 1], es);
      Corrections(ws[..|ws| - 1], es) + (if s.Some? then [s.value] else [])
  }

  /**
   * The best candidate is the first entry at minimum distance: no entry is
   * closer, and every earlier entry is strictly farther.
   */
  lemma {:induction false} BestIsFirstMinimum<V>(word: string, es: seq<Entry<V>>) returns (i: nat)
    requires es != []
    ensures i < |es|
    ensures Best(word, es) == Some((es[i].key, Distance(word, es[i].key)))
    ensures forall j :: 0 <= j < |es| ==> Distance(word, es[i].key) <= Distance(word, es[j].key)
    ensures forall j :: 0 <= j < i ==> Distance(word, es[i].key) < Distance(word, es[j].key)
    decreases |es|
  {
    var n := |es| - 1;
    var p := es[..n];
    var dn := Distance(word, es[n].key);
    if p == [] {
      i := 0;
    } else {
      var ip := BestIsFirstMinimum(word, p);
      if dn < Distance(word, p[ip].key) {
        i := n;
      } else {
        i := ip;
      }
    }
  }

  /** No entries, no candidate. */
  lemma BestOfNothing<V>(word: string, es: seq<Entry<V>>)
    requires es == []
    ensures Best(word, es) == None && Suggestion(word, es) == None
  {
  }

  /** Corrections of a concatenation: the pairs of the first words come first. */
  lemma {:induction false} CorrectionsAppend<V>(ws1: seq<string>, ws2: seq<string>, es: seq<Entry<V>>)
    ensures Corrections(ws1 + ws2, es) == Corrections(ws1, es) + Corrections(ws2, es)
    decreases |ws2|
  {
    if ws2 == [] {
      assert ws1 + ws2 == ws1;
    } else {
      var n := |ws2| - 1;
      assert (ws1 + ws2)[..|ws1 + ws2| - 1] == ws1 + ws2[..n];
      CorrectionsAppend(ws1, ws2[..n], es);
    }
  }

  /** At most one pair per word, and each pair starts with its word. */
  lemma {:induction false} CorrectionsShape<V>(ws: seq<string>, es: seq<Entry<V>>)
    ensures |Corrections(ws, es)| <= |ws|
    ensures forall p :: p in Corrections(ws, es) ==> p.0 in ws
    decreases |ws|
  {
    if ws != [] {
      CorrectionsShape(ws[..|ws| - 1], es);
      assert ws == ws[..|ws| - 1] + [ws[|ws| - 1]];
    }
  }

  /** An empty dictionary yields no pair at all. */
  lemma {:induction false} CorrectionsFromNothing<V>(ws: seq<string>, es: seq<Entry<V>>)
    requires es == []
    ensures Corrections(ws, es) == []
    decreases |ws|
  {
    if ws != [] {
      CorrectionsFromNothing(ws[..|ws| - 1], es);
    }
  }

  /**
   * An emitted suggestion is a non-empty key of the dictionary within
   * distance 2 of the word, and no key of the dictionary is closer.
   */
  lemma SuggestionIsClosestKey(word: string, dictionary: HashTable<bool>, s: string)
    requires dictionary.Valid()
    requires Suggestion(word, Scan(dictionary.GetTable())) == Some((word, s))
    ensures s in dictionary.Contents && s != "" && Distance(word, s) <= 2
    ensures forall k :: k in dictionary.Contents ==> Distance(word, s) <= Distance(word, k)
  {
    var es := Scan(dictionary.GetTable());
    var i := BestIsFirstMinimum(word, es);
    assert es[i].key == s;
    IndexOfIs(es, s, IndexOf(es, s));
    assert Lookup(es, s).Some?;
    forall k | k in dictionary.Contents
      ensures Distance(word, s) <= Distance(word, k)
    {
      assert Lookup(es, k).Some?;
      var j := IndexOf(es, k);
      assert es[j].key == k;
    }
  }

  /** The scan of one bucket list in suggest_corrections' inner loop. */
  method ScanBucket(word: string, bucket: Bucket<bool>, ghost done: seq<Entry<bool>>,
                    bestMatch0: string, bestDistance0: Option<nat>)
    returns (bestMatch: string, bestDistance: Option<nat>)
    requires (if bestDistance0.None? then None else Some((bestMatch0, bestDistance0.value))) == Best(word, done)
    requires bestDistance0.None? ==> bestMatch0 == ""
    ensures (if bestDistance.None? then None else Some((bestMatch, bestDistance.value))) == Best(word, done + bucket)
    ensures bestDistance.None? ==> bestMatch == ""
  {
    bestMatch, bestDistance := bestMatch0, bestDistance0;
    var i := 0;
    assert done + bucket[..0] == done;
    while i < |bucket|
      invariant 0 <= i <= |bucket|
      invariant (if bestDistance.None? then None else Some((bestMatch, bestDistance.value))) == Best(word, done + bucket[..i])
      invariant bestDistance.None? ==> bestMatch == ""
    {
      var entry := bucket[i].key;
      var distance := LevenshteinDistance(word, entry);
      assert (done + bucket[..i + 1])[..|done| + i] == done + bucket[..i];
      if bestDistance.None? || distance < bestDistance.value {
        bestDistance := Some(distance);
        bestMatch := entry;
      }
      i := i + 1;
    }
    assert bucket[..|bucket|] == bucket;
  }

  /**
   * The two inner loops of suggest_corrections for one word: every entry
   * of every bucket, in get_table()'s order.
   */
  method ClosestKey(word: string, table: seq<Bucket<bool>>) returns (bestMatch: string, bestDistance: Option<nat>)
    ensures (if bestDistance.None? then None else Some((bestMatch, bestDistance.value))) == Best(word, Scan(table))
    ensures bestDistance.None? ==> bestMatch == ""
  {
    bestMatch := "";
    bestDistance := None;
    var b := 0;
    while b < |table|
      invariant 0 <= b <= |table|
      invariant (if bestDistance.None? then None else Some((bestMatch, bestDistance.value))) == Best(word, Scan(table[..b]))
      invariant bestDistance.None? ==> bestMatch == ""
    {
      bestMatch, bestDistance := ScanBucket(word, table[b], Scan(table[..b]), bestMatch, bestDistance);
      ScanPrefix(table, b);
      b := b + 1;
    }
    assert table[..|table|] == table;
  }

  /** The body of suggest_corrections' outer loop: the pair emitted for one word, if any. */
  method SuggestFor(word: string, table: seq<Bucket<bool>>) returns (s: Option<(string, string)>)
    ensures s == Suggestion(word, Scan(table))
  {
    var bestMatch, bestDistance := ClosestKey(word, table);
    if bestDistance.Some? && bestDistance.value <= 2 && bestMatch != "" {
      s := Some((word, bestMatch));
    } else {
      s := None;
    }
  }

  /**
   * suggest_corrections: for each word, scan every entry of get_table() in
   * bucket order, keep the first key at strictly smallest distance, and
   * emit (word, key) when that distance is at most 2 and the key is
   * non-empty.
   */
  method SuggestCorrections(misspelled: seq<string>, dictionary: HashTable<bool>)
    returns (corrections: seq<(string, string)>)
    requires dictionary.Valid()
    ensures corrections == Corrections(misspelled, Scan(dictionary.GetTable()))
  {
    var table := dictionary.GetTable();
    corrections := CorrectionsOver(misspelled, table);
  }

  /** suggest_corrections' outer loop over the words, against a copy of the bucket vector. */
  method CorrectionsOver(misspelled: seq<string>, table: seq<Bucket<bool>>)
    returns (corrections: seq<(string, string)>)
    ensures corrections == Corrections(misspelled, Scan(table))
  {
    corrections := [];
    var w := 0;
    while w < |misspelled|
      invariant 0 <= w <= |misspelled|
      invariant corrections == Corrections(misspelled[..w], Scan(table))
    {
      var s := SuggestFor(misspelled[w], table);
      if s.Some? {
        corrections := corrections + [s.value];
      }
      assert misspelled[..w + 1][..w] == misspelled[..w];
      w := w + 1;
    }
    assert misspelled[..|misspelled|] == misspelled;
  }
}
