/** Names that bypass the encrypted upstreams: a string suffix test that must mean a label suffix. */
module Passthrough {

  // ----- The string test

  function LowerChar(c: char): (l: char)
    ensures l == '.' <==> c == '.'
  {
    if 'A' <= c <= 'Z' then c - 'A' + 'a' else c
  }

  function Lower(s: string): (l: string)
    ensures |l| == |s| && forall i :: 0 <= i < |s| ==> l[i] == LowerChar(s[i])
  {
    seq(|s|, i requires 0 <= i < |s| => LowerChar(s[i]))
  }

  function TrimLeft(s: string): string {
    if s != [] && s[0] == '.' then TrimLeft(s[1..]) else s
  }

  function TrimRight(s: string): string {
    if s != [] && s[|s| - 1] == '.' then TrimRight(s[..|s| - 1]) else s
  }

  function Trim(s: string): string {
    TrimRight(TrimLeft(s))
  }

  function Normalise(s: string): string {
    "." + Lower(Trim(s)) + "."
  }

  predicate HasSuffix<T(==)>(s: seq<T>, t: seq<T>) {
    |t| <= |s| && s[|s| - |t|..] == t
  }

  // ----- What it should mean

  /** The labels of a dotted string; the empty string has one empty label. */
  function Split(s: string): (labels: seq<string>)
    ensures labels != []
  {
    if s == [] then [""]
    else
      var rest := Split(s[1..]);
      if s[0] == '.' then [""] + rest else [[s[0]] + rest[0]] + rest[1..]
  }

  function Join(labels: seq<string>): string
    requires labels != []
  {
    if |labels| == 1 then labels[0] else labels[0] + "." + Join(labels[1..])
  }

  function LowerAll(labels: seq<string>): (r: seq<string>)
    ensures |r| == |labels|
  {
    seq(|labels|, i requires 0 <= i < |labels| => Lower(labels[i]))
  }

  /** The case-folded labels of a name, outer dots aside. */
  function Labels(name: string): seq<string> {
    LowerAll(Split(Trim(name)))
  }

  // ----- They agree

  lemma {:induction false} JoinSplit(s: string)
    ensures Join(Split(s)) == s
  {
    if s != [] {
      var rest := Split(s[1..]);
      JoinSplit(s[1..]);
      if s[0] == '.' {
        assert ([""] + rest)[1..] == rest;
      } else if |rest| > 1 {
        assert ([[s[0]] + rest[0]] + rest[1..])[1..] == rest[1..];
      }
      assert s == [s[0]] + s[1..];
    }
  }

  lemma {:induction false} JoinConcat(a: seq<string>, b: seq<string>)
    requires a != [] && b != []
    ensures Join(a + b) == Join(a) + "." + Join(b)
  {
    if |a| == 1 {
      assert (a + b)[1..] == b;
    } else {
      assert (a + b)[1..] == a[1..] + b;
      JoinConcat(a[1..], b);
    }
  }

  lemma {:induction false} SplitConcat(x: string, y: string)
    ensures Split(x + "." + y) == Split(x) + Split(y)
  {
    if x == [] {
      assert (x + "." + y)[1..] == y;
    } else {
      assert (x + "." + y)[1..] == x[1..] + "." + y;
      SplitConcat(x[1..], y);
    }
  }

  lemma DotSuffixToLabels(a: string, b: string)
    requires HasSuffix("." + a, "." + b)
    ensures HasSuffix(Split(a), Split(b))
  {
    hide Split;
    if |a| == |b| {
      assert a == ("." + a)[1..] && b == ("." + b)[1..];
    } else {
      var k := |a| - |b|;
      var x := a[..k - 1];
      assert ("." + a)[k..] == a[k - 1..];
      assert a == x + "." + b;
      SplitConcat(x, b);
    }
  }

  lemma LabelsToDotSuffix(a: string, b: string)
    requires HasSuffix(Split(a), Split(b))
    ensures HasSuffix("." + a, "." + b)
  {
    hide Split, Join;
    var n := |Split(a)| - |Split(b)|;
    var before := Split(a)[..n];
    assert Split(a) == before + Split(b);
    JoinSplit(a);
    JoinSplit(b);
    if n > 0 {
      JoinConcat(before, Split(b));
      assert "." + a == "." + Join(before) + ("." + b);
    }
  }

  /** A suffix that starts at a dot is a suffix of whole labels, and conversely. */
  lemma DotSuffixIsLabelSuffix(a: string, b: string)
    ensures HasSuffix("." + a, "." + b) <==> HasSuffix(Split(a), Split(b))
  {
    hide Split, HasSuffix;
    if HasSuffix("." + a, "." + b) {
      DotSuffixToLabels(a, b);
    }
    if HasSuffix(Split(a), Split(b)) {
      LabelsToDotSuffix(a, b);
    }
  }

  lemma {:induction false} SplitLower(s: string)
    ensures Split(Lower(s)) == LowerAll(Split(s))
  {
    if s != [] {
      assert Lower(s)[1..] == Lower(s[1..]);
      SplitLower(s[1..]);
      var rest := Split(s[1..]);
      assert Lower(s)[0] == LowerChar(s[0]);
      if s[0] != '.' {
        assert Lower([s[0]] + rest[0]) == [LowerChar(s[0])] + Lower(rest[0]);
      }
    }
  }

  /** For all strings: the test succeeds exactly when the entry's labels end the question's labels. */
  lemma TestMeansLabelSuffix(question: string, entry: string)
    ensures HasSuffix(Normalise(question), Normalise(entry)) <==> HasSuffix(Labels(question), Labels(entry))
  {
    var a, b := Lower(Trim(question)), Lower(Trim(entry));
    CommonTail("." + a, "." + b, ".");
    DotSuffixIsLabelSuffix(a, b);
    SplitLower(Trim(question));
    SplitLower(Trim(entry));
  }

  lemma CommonTail(s: string, t: string, tail: string)
    ensures HasSuffix(s + tail, t + tail) <==> HasSuffix(s, t)
  {
    if |t| <= |s| {
      var k := |s| - |t|;
      assert (s + tail)[k..] == s[k..] + tail;
      if s[k..] + tail == t + tail {
        assert s[k..] == (s[k..] + tail)[..|t|] == (t + tail)[..|t|] == t;
      }
    }
  }

  /** A suffix is what is left after some beginning. */
  lemma SuffixMeans<T>(s: seq<T>, t: seq<T>)
    ensures HasSuffix(s, t) <==> exists x :: s == x + t
  {
    if HasSuffix(s, t) {
      assert s == s[..|s| - |t|] + t;
    }
  }

  // ----- Letter case

  /** The same character, or the two cases of one ASCII letter. */
  predicate SameLetter(a: char, b: char) {
    || a == b
    || ('A' <= a <= 'Z' && b as int == a as int + 32)
    || ('A' <= b <= 'Z' && a as int == b as int + 32)
  }

  lemma LowerExactly(a: char, b: char)
    ensures LowerChar(a) == LowerChar(b) <==> SameLetter(a, b)
  {
  }

  /** Equal but for the case of ASCII letters. */
  ghost predicate SameButCase(s: string, t: string) {
    |s| == |t| && forall i :: 0 <= i < |s| ==> SameLetter(s[i], t[i])
  }

  lemma LowerSame(s: string, t: string)
    ensures Lower(s) == Lower(t) <==> SameButCase(s, t)
  {
    hide LowerChar, SameLetter;
    forall i | 0 <= i < |s| && i < |t| ensures LowerChar(s[i]) == LowerChar(t[i]) <==> SameLetter(s[i], t[i]) {
      LowerExactly(s[i], t[i]);
    }
    if Lower(s) == Lower(t) {
      forall i | 0 <= i < |s| ensures SameLetter(s[i], t[i]) {
        assert Lower(s)[i] == Lower(t)[i];
      }
    }
  }

  lemma {:induction false} LowerTrimLeft(s: string)
    ensures TrimLeft(Lower(s)) == Lower(TrimLeft(s))
  {
    if s != [] && s[0] == '.' {
      assert Lower(s)[1..] == Lower(s[1..]);
      LowerTrimLeft(s[1..]);
    }
  }

  lemma {:induction false} LowerTrimRight(s: string)
    ensures TrimRight(Lower(s)) == Lower(TrimRight(s))
  {
    if s != [] && s[|s| - 1] == '.' {
      var n := |s| - 1;
      assert Lower(s)[..n] == Lower(s[..n]);
      LowerTrimRight(s[..n]);
    }
  }

  /** Names that differ only in case have the same labels, so the same verdict with every entry. */
  lemma CaseDoesNotMatter(s: string, t: string)
    requires SameButCase(s, t)
    ensures Labels(s) == Labels(t) && Normalise(s) == Normalise(t)
  {
    hide SameButCase, Lower, TrimLeft, TrimRight;
    LowerSame(s, t);
    LowerTrimLeft(s);
    LowerTrimLeft(t);
    LowerTrimRight(TrimLeft(s));
    LowerTrimRight(TrimLeft(t));
    SplitLower(Trim(s));
    SplitLower(Trim(t));
  }

  // ----- Names written out from labels

  /** Non-empty labels without dots. */
  ghost predicate Proper(labels: seq<string>) {
    && labels != []
    && forall i :: 0 <= i < |labels| ==> labels[i] != [] && '.' !in labels[i]
  }

  function Dots(n: nat): (s: string)
    ensures |s| == n && forall i :: 0 <= i < n ==> s[i] == '.'
  {
    seq(n, _ => '.')
  }

  lemma {:induction false} SplitJoin(labels: seq<string>)
    requires Proper(labels)
    ensures Split(Join(labels)) == labels
    ensures Join(labels) != [] && Join(labels)[0] != '.' && Join(labels)[|Join(labels)| - 1] != '.'
  {
    SplitDotFree(labels[0]);
    assert labels[0][0] in labels[0] && labels[0][|labels[0]| - 1] in labels[0];
    if |labels| > 1 {
      SplitJoin(labels[1..]);
      SplitConcat(labels[0], Join(labels[1..]));
    }
  }

  lemma {:induction false} SplitDotFree(s: string)
    requires '.' !in s
    ensures Split(s) == [s]
  {
    if s != [] {
      assert s[0] in s;
      SplitDotFree(s[1..]);
      assert s == [s[0]] + s[1..];
    }
  }

  lemma {:induction false} TrimDots(i: nat, s: string, j: nat)
    requires s != [] && s[0] != '.' && s[|s| - 1] != '.'
    ensures TrimLeft(Dots(i) + s + Dots(j)) == s + Dots(j)
    ensures TrimRight(s + Dots(j)) == s
    decreases i + j
  {
    if i > 0 {
      assert (Dots(i) + s + Dots(j))[1..] == Dots(i - 1) + s + Dots(j);
      TrimDots(i - 1, s, j);
    } else {
      assert Dots(0) + s + Dots(j) == s + Dots(j);
      if j > 0 {
        assert (s + Dots(j))[..|s| + j - 1] == s + Dots(j - 1);
        TrimDots(0, s, j - 1);
      } else {
        assert s + Dots(0) == s;
      }
    }
  }

  /** Leading and trailing dots and letter case do not matter. */
  lemma LabelsOfName(labels: seq<string>, i: nat, j: nat, name: string)
    requires Proper(labels) && SameButCase(name, Dots(i) + Join(labels) + Dots(j))
    ensures Labels(name) == LowerAll(labels)
  {
    hide SameButCase;
    CaseDoesNotMatter(name, Dots(i) + Join(labels) + Dots(j));
    SplitJoin(labels);
    TrimDots(i, Join(labels), j);
  }

  lemma {:induction false} OnlyDots(k: nat)
    ensures TrimLeft(Dots(k)) == []
  {
    if k > 0 {
      assert Dots(k)[1..] == Dots(k - 1);
      OnlyDots(k - 1);
    }
  }

  lemma {:induction false} TrimRightEnds(s: string)
    ensures TrimRight(s) != [] ==> TrimRight(s)[|TrimRight(s)| - 1] != '.'
  {
    if s != [] && s[|s| - 1] == '.' {
      TrimRightEnds(s[..|s| - 1]);
    }
  }

  /** An entry of dots alone matches questions of dots alone, not every name. */
  lemma RootEntry(question: string, k: nat)
    ensures HasSuffix(Normalise(question), Normalise(Dots(k))) <==> Trim(question) == []
  {
    OnlyDots(k);
    assert Normalise(Dots(k)) == "..";
    TrimRightEnds(TrimLeft(question));
    var l := Lower(Trim(question));
    if l != [] {
      assert Normalise(question)[|l|] == l[|l| - 1] == LowerChar(Trim(question)[|l| - 1]);
    }
  }

  // ----- The client

  /** The conversion library: its text and whether it failed. The text is used only on failure. */
  type Idna = string -> (string, bool)

  function Converted(idna: Idna, name: string): (r: string)
    ensures idna(name).1 ==> r == idna(name).0
    ensures !idna(name).1 ==> r == name
  {
    if idna(name).1 then idna(name).0 else name
  }

  class Client {
    const idna: Idna
    const bootstrap: seq<string>
    const passthrough: seq<string>

    /** The configured entries that take effect. */
    ghost const entries: seq<string>

    ghost predicate Valid() {
      && |passthrough| == |entries|
      && forall i :: 0 <= i < |entries| ==> passthrough[i] == Normalise(Converted(idna, entries[i]))
    }

    /** Entries take effect only with a bootstrap server to pass queries to. */
    constructor (idna: Idna, bootstrap: seq<string>, configured: seq<string>)
      ensures Valid() && this.idna == idna && this.bootstrap == bootstrap
      ensures entries == if bootstrap == [] then [] else configured
    {
      var list: seq<string> := [];
      if bootstrap != [] {
        for i := 0 to |configured|
          invariant |list| == i
          invariant forall k :: 0 <= k < i ==> list[k] == Normalise(Converted(idna, configured[k]))
        {
          list := list + [Normalise(Converted(idna, configured[i]))];
        }
      }
      this.idna, this.bootstrap, passthrough := idna, bootstrap, list;
      entries := if bootstrap == [] then [] else configured;
    }

    /**
     * Passed through exactly when some entry's labels end the question's labels, so
     * whatever the letter case.
     */
    method ShouldPassthrough(question: string) returns (pass: bool)
      requires Valid()
      ensures pass <==> exists i :: 0 <= i < |entries| &&
                          HasSuffix(Labels(Converted(idna, question)), Labels(Converted(idna, entries[i])))
    {
      hide Normalise, Labels, HasSuffix;
      pass := false;
      var name := Normalise(Converted(idna, question));
      for i := 0 to |passthrough|
        invariant forall k :: 0 <= k < i ==>
                    !HasSuffix(Labels(Converted(idna, question)), Labels(Converted(idna, entries[k])))
      {
        TestMeansLabelSuffix(Converted(idna, question), Converted(idna, entries[i]));
        if HasSuffix(name, passthrough[i]) {
          return true;
        }
      }
    }
  }
}
