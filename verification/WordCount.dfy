/** ClobScalarUDF: the number of words in a character large object. */
module WordCount {

  /** Characters i..j are a word: no space in it, and none can be added. */
  ghost predicate IsWord(s: string, i: nat, j: nat) {
    && i < j <= |s|
    && (forall k :: i <= k < j ==> s[k] != ' ')
    && (i == 0 || s[i - 1] == ' ')
    && (j == |s| || s[j] == ' ')
  }

  predicate StartsWord(s: string, i: nat) {
    i < |s| && s[i] != ' ' && (i == 0 || s[i - 1] == ' ')
  }

  /** How many words start among the first `n` characters. */
  function Starts(s: string, n: nat): nat
    requires n <= |s|
  {
    if n == 0 then 0 else Starts(s, n - 1) + if StartsWord(s, n - 1) then 1 else 0
  }

  function Words(s: string): nat {
    Starts(s, |s|)
  }

  /** Counting the places where words start counts the words: at every such place
      there is exactly one, and no word starts elsewhere. */
  lemma WordsStart(s: string, i: nat) returns (j: nat)
    ensures StartsWord(s, i) ==> IsWord(s, i, j)
    ensures forall k :: IsWord(s, i, k) ==> StartsWord(s, i) && k == j
  {
    j := i;
    while j < |s| && s[j] != ' '
      invariant i <= j && (j <= |s| || j == i)
      invariant forall k :: i <= k < j ==> s[k] != ' '
      decreases |s| - j
    {
      j := j + 1;
    }
  }

  /** The words among the first `n` characters, each as the pair of its ends. */
  ghost function WordsOf(s: string, n: nat): set<(nat, nat)>
    requires n <= |s|
  {
    set i: nat, j: nat | 0 <= i < n && i < j <= |s| && IsWord(s, i, j) :: (i, j)
  }

  lemma WordsOfNext(s: string, n: nat) returns (j: nat)
    requires 0 < n <= |s|
    ensures WordsOf(s, n) == WordsOf(s, n - 1) + if StartsWord(s, n - 1) then {(n - 1, j)} else {}
    ensures (n - 1, j) !in WordsOf(s, n - 1)
  {
    j := WordsStart(s, n - 1);
    hide IsWord, StartsWord;
    forall w | w in WordsOf(s, n) && w.0 == n - 1 ensures StartsWord(s, n - 1) && w.1 == j {
      assert IsWord(s, n - 1, w.1);
    }
  }

  /** What is returned is the number of words. */
  lemma {:induction false} WordsIsCount(s: string, n: nat)
    requires n <= |s|
    ensures |WordsOf(s, n)| == Starts(s, n)
  {
    if n == 0 {
      assert WordsOf(s, 0) == {};
    } else {
      WordsIsCount(s, n - 1);
      var j := WordsOfNext(s, n);
      hide WordsOf, StartsWord;
    }
  }

  lemma {:induction false} NoStarts(s: string, i: nat, n: nat)
    requires i <= n <= |s| && forall k: nat :: i <= k < n ==> !StartsWord(s, k)
    ensures Starts(s, n) == Starts(s, i)
  {
    if i < n {
      NoStarts(s, i, n - 1);
    }
  }

  /** The C code tests data[i] before i < length in its inner loops; the order of
      the two tests is swapped here. */
  method ClobScalarUDF(data: string) returns (numWords: nat)
    ensures numWords == Words(data) == |WordsOf(data, |data|)|
  {
    WordsIsCount(data, |data|);
    numWords := 0;
    // skip the first spaces
    var i := 0;
    while i < |data| && data[i] == ' '
      invariant i <= |data| && forall k :: 0 <= k < i ==> data[k] == ' '
    {
      i := i + 1;
    }
    NoStarts(data, 0, i);
    while i < |data|
      invariant i <= |data| && numWords == Starts(data, i)
      invariant i < |data| ==> StartsWord(data, i)
    {
      numWords := numWords + 1;
      ghost var start := i;
      // reach the end of the word
      while i < |data| && data[i] != ' '
        invariant start <= i <= |data| && forall k :: start <= k < i ==> data[k] != ' '
      {
        i := i + 1;
      }
      ghost var end := i;
      // skip the next spaces
      while i < |data| && data[i] == ' '
        invariant end <= i <= |data| && forall k :: end <= k < i ==> data[k] == ' '
      {
        i := i + 1;
      }
      NoStarts(data, start + 1, i);
    }
  }

  // ------------------------------------------------------------ two texts joined

  lemma {:induction false} StartsInPrefix(s: string, t: string, n: nat)
    requires n <= |s| <= |t| && s == t[..|s|]
    ensures Starts(s, n) == Starts(t, n)
  {
    if n > 0 {
      StartsInPrefix(s, t, n - 1);
    }
  }

  lemma {:induction false} StartsInSuffix(s: string, t: string, k: nat, n: nat)
    requires n <= |s| && 0 < k <= |t| && s == t[k..] && t[k - 1] == ' '
    ensures Starts(t, k + n) == Starts(t, k) + Starts(s, n)
  {
    if n > 0 {
      StartsInSuffix(s, t, k, n - 1);
      assert t[k + n - 1] == s[n - 1] && (n > 1 ==> t[k + n - 2] == s[n - 2]);
    }
  }

  /** Two texts joined by a space have the words of both. */
  lemma WordsAdd(a: string, b: string)
    ensures Words(a + " " + b) == Words(a) + Words(b)
  {
    var t, k := a + " " + b, |a| + 1;
    StartsInPrefix(a, t, |a|);
    assert t[k - 1] == ' ' && t[k..] == b;
    StartsInSuffix(b, t, k, |b|);
  }
}
