/**
 * The approximate string matcher of workshop/helpers.py, which reconciles
 * words read by text recognition with the names a user typed in:
 * `levenshtein` (a two-row Wagner-Fischer table) and `find_closest` (a
 * left-to-right scan keeping the first candidate at minimum distance).
 */
module Helpers {
  import opened Wrappers
  import opened EditDistances

  /**
   * `levenshtein(s1, s2)`: swaps the arguments so that the longer string
   * drives the outer loop, answers directly when the shorter one is empty,
   * and otherwise keeps only the previous and the current row of the table.
   */
  method Levenshtein(s1: string, s2: string) returns (d: nat)
    ensures d == EditDistance(s1, s2)
    ensures |s1| == 0 ==> d == |s2|
    ensures |s2| == 0 ==> d == |s1|
    decreases if |s1| < |s2| then 1 else 0
  {
    if |s1| < |s2| {
      d := Levenshtein(s2, s1);
      Symmetric(s2, s1);
      return;
    }
    if |s2| == 0 {
      return |s1|;
    }
    var previousRow: seq<nat> := seq(|s2| + 1, j => j);
    FirstRow(s1, s2);
    for i := 0 to |s1|
      invariant previousRow == Row(s1, s2, i)
    {
      var c1 := s1[i];
      var currentRow: seq<nat> := [i + 1];
      RowStart(s1, s2, i);
      for j := 0 to |s2|
        invariant currentRow == Row(s1, s2, i + 1)[..j + 1]
      {
        var c2 := s2[j];
        var insertions := previousRow[j + 1] + 1;
        var deletions := currentRow[j] + 1;
        var substitutions := previousRow[j] + SubstitutionCost(c1, c2);
        RowStep(s1, s2, i, j, previousRow, currentRow);
        currentRow := currentRow + [Min3(insertions, deletions, substitutions)];
      }
      previousRow := currentRow;
    }
    LastRow(s1, s2);
    d := previousRow[|s2|];
  }

  predicate IsAsciiUpper(c: char) {
    'A' <= c <= 'Z'
  }

  function LowerChar(c: char): char {
    if IsAsciiUpper(c) then (c as int - 'A' as int + 'a' as int) as char else c
  }

  /** Python's `str.lower`, restricted to the ASCII letters. */
  function Lower(s: string): (r: string)
    ensures |r| == |s|
    ensures forall i :: 0 <= i < |r| ==> !IsAsciiUpper(r[i])
    ensures forall i :: 0 <= i < |s| && !IsAsciiUpper(s[i]) ==> r[i] == s[i]
  {
    seq(|s|, i requires 0 <= i < |s| => LowerChar(s[i]))
  }

  /** Lowercasing twice is lowercasing once. */
  lemma LowerIdempotent(s: string)
    ensures Lower(Lower(s)) == Lower(s)
  {
  }

  /** The distance `find_closest` compares: between the lowercased reference and the lowercased candidate. */
  ghost function Distance(text: string, word: string): nat {
    EditDistance(Lower(text), Lower(word))
  }

  /**
   * Among the first `n` candidates, `words[k]` is the first at minimum
   * distance from `text`: none of them is closer, and every one before it
   * is strictly farther.
   */
  ghost predicate IsFirstClosestAmong(text: string, words: seq<string>, k: nat, n: nat)
    requires n <= |words|
  {
    && k < n
    && (forall j :: 0 <= j < n ==> Distance(text, words[k]) <= Distance(text, words[j]))
    && (forall j :: 0 <= j < k ==> Distance(text, words[k]) < Distance(text, words[j]))
  }

  /** `words[k]` is the first candidate at minimum distance from `text`. */
  ghost predicate IsFirstClosest(text: string, words: seq<string>, k: nat) {
    IsFirstClosestAmong(text, words, k, |words|)
  }

  /**
   * One step of the scan: the next candidate replaces the running best
   * exactly when it is strictly closer, which keeps the first minimum.
   */
  lemma ScanStep(text: string, words: seq<string>, best: nat, n: nat)
    requires n < |words|
    requires n == 0 || IsFirstClosestAmong(text, words, best, n)
    ensures n == 0 || Distance(text, words[best]) > Distance(text, words[n]) ==> IsFirstClosestAmong(text, words, n, n + 1)
    ensures n > 0 && Distance(text, words[best]) <= Distance(text, words[n]) ==> IsFirstClosestAmong(text, words, best, n + 1)
  {
  }

  /** The first closest candidate is unique, so the contract of FindClosest fixes its result. */
  lemma FirstClosestUnique(text: string, words: seq<string>, k1: nat, k2: nat)
    requires IsFirstClosest(text, words, k1) && IsFirstClosest(text, words, k2)
    ensures k1 == k2
  {
    assert Distance(text, words[k1]) <= Distance(text, words[k2]);
    assert Distance(text, words[k2]) <= Distance(text, words[k1]);
  }

  /** The dictionary `{'word': ..., 'distance': ...}` returned by `find_closest`. */
  datatype Match = Match(word: Option<string>, distance: Option<nat>)

  /**
   * `find_closest(text, words)`: both fields are None exactly when there is
   * no candidate; otherwise the word is the original (not lowercased) first
   * candidate at minimum distance, with that distance.
   */
  method FindClosest(text: string, words: seq<string>) returns (m: Match)
    ensures m.word == None <==> |words| == 0
    ensures m.distance == None <==> |words| == 0
    ensures |words| > 0 ==>
      exists k: nat :: IsFirstClosest(text, words, k)
               && m.word == Some(words[k])
               && m.distance == Some(Distance(text, words[k]))
  {
    var closestDistance: Option<nat> := None;
    var closestWord: Option<string> := None;
    ghost var best: nat := 0;
    for n := 0 to |words|
      invariant closestDistance == None <==> n == 0
      invariant closestWord == None <==> n == 0
      invariant n > 0 ==> IsFirstClosestAmong(text, words, best, n)
      invariant n > 0 ==> closestWord == Some(words[best])
      invariant n > 0 ==> closestDistance == Some(Distance(text, words[best]))
    {
      var word := words[n];
      var distance := Levenshtein(Lower(text), Lower(word));
      ScanStep(text, words, best, n);
      if closestDistance == None || closestDistance.value > distance {
        closestDistance := Some(distance);
        closestWord := Some(word);
        best := n;
      }
    }
    m := Match(closestWord, closestDistance);
    if |words| > 0 {
      assert IsFirstClosest(text, words, best);
    }
  }

  /** A string without ASCII capitals is its own lowercase form. */
  lemma LowerOfLowercase(s: string)
    requires forall i :: 0 <= i < |s| ==> !IsAsciiUpper(s[i])
    ensures Lower(s) == s
  {
  }

  lemma DistanceCatCar()
    ensures EditDistance("cat", "car") == 1
  {
    assert "cat" == "ca" + ['t'] && "car" == "ca" + ['r'];
    ZeroIffEqual("ca", "ca");
    AppendBoth("ca", "ca", 't', 'r');
    ZeroIffEqual("cat", "car");
  }

  lemma DistanceCatBat()
    ensures EditDistance("cat", "bat") == 1
  {
    assert EditDistance("c", "b") == 1;
    assert "ca" == "c" + ['a'] && "ba" == "b" + ['a'];
    AppendBoth("c", "b", 'a', 'a');
    assert "cat" == "ca" + ['t'] && "bat" == "ba" + ['t'];
    AppendBoth("ca", "ba", 't', 't');
    ZeroIffEqual("cat", "bat");
  }

  lemma DistanceJohnJon()
    ensures EditDistance("john", "jon") == 1
  {
    ZeroIffEqual("jo", "jo");
    assert "joh" == "jo" + ['h'];
    AppendLeft("jo", "jo", 'h');
    assert "john" == "joh" + ['n'] && "jon" == "jo" + ['n'];
    AppendBoth("joh", "jo", 'n', 'n');
    LowerBound("john", "jon");
  }

  lemma DistanceJohnJohnny()
    ensures EditDistance("john", "johnny") == 2
  {
    ZeroIffEqual("john", "john");
    assert "johnn" == "john" + ['n'];
    AppendRight("john", "john", 'n');
    assert "johnny" == "johnn" + ['y'];
    AppendRight("john", "johnn", 'y');
    LowerBound("john", "johnny");
  }

  lemma LowerJohnExample()
    ensures Lower("John") == "john" && Lower("Jon") == "jon"
    ensures Lower("Johnny") == "johnny" && Lower("Jane") == "jane"
  {
    assert Lower("John")[0] == 'j';
    assert Lower("Jon")[0] == 'j';
    assert Lower("Johnny")[0] == 'j';
    assert Lower("Jane")[0] == 'j';
  }

  /** When two candidates tie, the earlier one is the first closest and the later one is not. */
  lemma TieOfTwo(text: string, w0: string, w1: string)
    requires Distance(text, w0) == Distance(text, w1)
    ensures IsFirstClosest(text, [w0, w1], 0)
    ensures !IsFirstClosest(text, [w0, w1], 1)
  {
    var words := [w0, w1];
    assert words[0] == w0 && words[1] == w1;
  }

  lemma CatDistances()
    ensures Distance("cat", "car") == 1 && Distance("cat", "bat") == 1
  {
    LowerOfLowercase("cat");
    LowerOfLowercase("car");
    LowerOfLowercase("bat");
    DistanceCatCar();
    DistanceCatBat();
  }

  /** The tie-break example: "car" and "bat" are both one edit from "cat", and the earlier "car" wins. */
  lemma TieBreakExample()
    ensures Distance("cat", "car") == 1 && Distance("cat", "bat") == 1
    ensures IsFirstClosest("cat", ["car", "bat"], 0)
    ensures !IsFirstClosest("cat", ["car", "bat"], 1)
  {
    CatDistances();
    TieOfTwo("cat", "car", "bat");
  }

  /** Comparison ignores ASCII case: "JOHN" is at distance 0 from "john". */
  lemma CaseInsensitiveExample()
    ensures Distance("JOHN", "john") == 0
    ensures IsFirstClosest("JOHN", ["john"], 0)
  {
    assert Lower("JOHN") == "john";
    LowerOfLowercase("john");
    ZeroIffEqual("john", "john");
  }

  /** A candidate list of three whose first word is at least as close as the others has it as first closest. */
  lemma FirstOfThree(text: string, w0: string, w1: string, w2: string)
    requires Distance(text, w0) <= Distance(text, w1) && Distance(text, w0) <= Distance(text, w2)
    ensures IsFirstClosest(text, [w0, w1, w2], 0)
  {
    var words := [w0, w1, w2];
    forall j | 0 <= j < |words|
      ensures Distance(text, words[0]) <= Distance(text, words[j])
    {
      assert words[j] == w0 || words[j] == w1 || words[j] == w2;
    }
  }

  lemma JohnJaneDiffer()
    ensures Distance("John", "Jane") >= 1
  {
    LowerJohnExample();
    assert "john"[1] != "jane"[1];
    ZeroIffEqual("john", "jane");
  }

  lemma JohnDistances()
    ensures Distance("John", "Jon") == 1 && Distance("John", "Johnny") == 2
  {
    LowerJohnExample();
    DistanceJohnJon();
    DistanceJohnJohnny();
  }

  /** "Jon" (one deletion away) is the closest of "Jon", "Johnny", "Jane" to "John"; "Johnny" is two insertions away. */
  lemma JohnExample()
    ensures Distance("John", "Jon") == 1 && Distance("John", "Johnny") == 2
    ensures IsFirstClosest("John", ["Jon", "Johnny", "Jane"], 0)
  {
    JohnDistances();
    JohnJaneDiffer();
    FirstOfThree("John", "Jon", "Johnny", "Jane");
  }
}
