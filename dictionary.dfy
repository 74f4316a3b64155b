/** Queries over the dictionary and over the sets the games keep: the
    length filter, Java's String.compareTo order, and the first element of a
    sorted set. */
module Dictionary {

  /** The dictionary words of length n, in dictionary order and with
      repetitions. */
  function OfLength(dictionary: seq<string>, n: int): (r: seq<string>)
    ensures |r| <= |dictionary|
    ensures forall w :: w in r <==> w in dictionary && |w| == n
    ensures r == [] <==> forall w :: w in dictionary ==> |w| != n
  {
    if dictionary == [] then []
    else (if |dictionary[0]| == n then [dictionary[0]] else []) + OfLength(dictionary[1..], n)
  }

  /** The same filter collected into a set: duplicates collapse. */
  function WordsOfLength(dictionary: seq<string>, n: int): (r: set<string>)
    ensures forall w :: w in r <==> w in dictionary && |w| == n
  {
    set w | w in OfLength(dictionary, n)
  }

  /** Collecting into a set never adds words and empties only an empty list. */
  lemma {:induction false} WordsOfLengthSize(dictionary: seq<string>, n: int)
    ensures |WordsOfLength(dictionary, n)| <= |OfLength(dictionary, n)|
    ensures WordsOfLength(dictionary, n) == {} <==> OfLength(dictionary, n) == []
  {
    if dictionary != [] {
      WordsOfLengthSize(dictionary[1..], n);
      WordsOfLengthCons(dictionary, n);
    }
    if OfLength(dictionary, n) != [] {
      assert OfLength(dictionary, n)[0] in WordsOfLength(dictionary, n);
    }
  }

  /** The set of a non-empty list: its head, if of length n, and the rest. */
  lemma WordsOfLengthCons(dictionary: seq<string>, n: int)
    requires dictionary != []
    ensures WordsOfLength(dictionary, n) ==
              (if |dictionary[0]| == n then {dictionary[0]} else {}) + WordsOfLength(dictionary[1..], n)
  {
  }

  /** The length of the longest common prefix of a and b. */
  function CommonPrefix(a: string, b: string): (k: nat)
    ensures k <= |a| && k <= |b| && a[..k] == b[..k]
    ensures k < |a| && k < |b| ==> a[k] != b[k]
  {
    if a == [] || b == [] || a[0] != b[0] then 0 else 1 + CommonPrefix(a[1..], b[1..])
  }

  /** a.compareTo(b) <= 0 for Java strings: the first differing character
      decides, and a proper prefix comes first. */
  predicate LexLe(a: string, b: string)
    ensures LexLe(a, b) <==>
              var k := CommonPrefix(a, b); k == |a| || (k < |b| && a[k] < b[k])
  {
    a == [] || (b != [] && (a[0] < b[0] || (a[0] == b[0] && LexLe(a[1..], b[1..]))))
  }

  lemma {:induction false} LexLeReflexive(a: string)
    ensures LexLe(a, a)
  {
    if a != [] {
      LexLeReflexive(a[1..]);
    }
  }

  lemma {:induction false} LexLeTotal(a: string, b: string)
    ensures LexLe(a, b) || LexLe(b, a)
  {
    if a != [] && b != [] && a[0] == b[0] {
      LexLeTotal(a[1..], b[1..]);
    }
  }

  lemma {:induction false} LexLeTransitive(a: string, b: string, c: string)
    requires LexLe(a, b) && LexLe(b, c)
    ensures LexLe(a, c)
  {
    if a != [] && b != [] && c != [] && a[0] == b[0] == c[0] {
      LexLeTransitive(a[1..], b[1..], c[1..]);
    }
  }

  lemma {:induction false} LexLeAntisymmetric(a: string, b: string)
    requires LexLe(a, b) && LexLe(b, a)
    ensures a == b
  {
    if a != [] && b != [] {
      LexLeAntisymmetric(a[1..], b[1..]);
      assert a == [a[0]] + a[1..] && b == [b[0]] + b[1..];
    }
  }

  /** If a comes no later than b and b no later than every word of rest, then
      so does a. */
  lemma LexLeBelowAll(a: string, b: string, rest: set<string>)
    requires LexLe(a, b)
    requires forall w :: w in rest ==> LexLe(b, w)
    ensures forall w :: w in rest ==> LexLe(a, w)
  {
    forall w | w in rest
      ensures LexLe(a, w)
    {
      LexLeTransitive(a, b, w);
    }
  }

  /** r is the first element of s in String.compareTo order. */
  predicate IsLeast(r: string, s: set<string>)
  {
    r in s && forall w :: w in s ==> LexLe(r, w)
  }

  /** Every non-empty set of strings has a first element. */
  lemma {:induction false} LeastExists(s: set<string>)
    requires s != {}
    ensures exists r :: IsLeast(r, s)
    decreases |s|
  {
    var w :| w in s;
    LexLeReflexive(w);
    if s == {w} {
      assert IsLeast(w, s);
    } else {
      LeastExists(s - {w});
      var m :| IsLeast(m, s - {w});
      LexLeTotal(w, m);
      if LexLe(w, m) {
        LexLeBelowAll(w, m, s - {w});
        assert IsLeast(w, s);
      } else {
        assert IsLeast(m, s);
      }
    }
  }

  /** ... and only one. */
  lemma LeastUnique(s: set<string>)
    ensures forall a, b :: IsLeast(a, s) && IsLeast(b, s) ==> a == b
  {
    forall a, b | IsLeast(a, s) && IsLeast(b, s)
      ensures a == b
    {
      LexLeAntisymmetric(a, b);
    }
  }

  /** The first element of a non-empty TreeSet<String>. */
  function Least(s: set<string>): (r: string)
    requires s != {}
    ensures r in s
    ensures forall w :: w in s ==> LexLe(r, w)
  {
    LeastExists(s);
    LeastUnique(s);
    var r :| IsLeast(r, s); r
  }

  /** The first word of a sorted set of words, or "" when it is empty. */
  function FirstWord(s: set<string>): (r: string)
    ensures s == {} ==> r == ""
    ensures s != {} ==> r in s && forall w :: w in s ==> LexLe(r, w)
  {
    if s == {} then "" else Least(s)
  }

  /** c is the smallest letter of s. */
  predicate IsLeastLetter(c: char, s: set<char>)
  {
    c in s && forall d :: d in s ==> c <= d
  }

  /** Every non-empty set of letters has a smallest one. */
  lemma {:induction false} LeastLetterExists(s: set<char>)
    requires s != {}
    ensures exists c :: IsLeastLetter(c, s)
    decreases |s|
  {
    var d :| d in s;
    if s == {d} {
      assert IsLeastLetter(d, s);
    } else {
      var rest := s - {d};
      LeastLetterExists(rest);
      var m :| IsLeastLetter(m, rest);
      var c := if d <= m then d else m;
      assert forall e :: e in s ==> e == d || e in rest;
      assert IsLeastLetter(c, s);
    }
  }

  /** The first element of a non-empty TreeSet<Character>. */
  function LeastLetter(s: set<char>): (c: char)
    requires s != {}
    ensures c in s
    ensures forall d :: d in s ==> c <= d
  {
    LeastLetterExists(s);
    var c :| IsLeastLetter(c, s); c
  }

  /** The iteration order of a TreeSet<Character>: smallest letter first. */
  function SortedLetters(s: set<char>): (r: seq<char>)
    ensures |r| == |s|
    decreases |s|
  {
    if s == {} then []
    else
      var c := LeastLetter(s);
      [c] + SortedLetters(s - {c})
  }

  /** Every letter of the set is listed, and nothing else. */
  lemma {:induction false} SortedLettersMembers(s: set<char>)
    ensures forall c :: c in SortedLetters(s) <==> c in s
    decreases |s|
  {
    if s != {} {
      var c := LeastLetter(s);
      SortedLettersMembers(s - {c});
      assert SortedLetters(s) == [c] + SortedLetters(s - {c});
    }
  }

  /** The letters are listed in strictly ascending order, so each once. */
  lemma {:induction false} SortedLettersAscending(s: set<char>)
    ensures forall i, j :: 0 <= i < j < |SortedLetters(s)| ==> SortedLetters(s)[i] < SortedLetters(s)[j]
    decreases |s|
  {
    if s != {} {
      var c := LeastLetter(s);
      var rest := SortedLetters(s - {c});
      SortedLettersMembers(s - {c});
      SortedLettersAscending(s - {c});
      assert SortedLetters(s) == [c] + rest;
      forall j | 0 <= j < |rest|
        ensures c < rest[j]
      {
        assert rest[j] in s - {c};
      }
    }
  }
}
