/** `remove_repeated_words`: split a text on whitespace, drop every token
    equal to the token just before it in the token list, and rejoin the
    kept tokens with single spaces. */
module WordDedup {
  import opened PyStr

  /** No element equals the one right after it. */
  predicate NoAdjacentDup<T(==)>(s: seq<T>) {
    forall i :: 0 < i < |s| ==> s[i - 1] != s[i]
  }

  /** The rule of app.py:74: position `i` is kept when it is the first one or
      differs from the element before it in the original list. */
  predicate KeepAt<T(==)>(ws: seq<T>, i: nat)
    requires i < |ws|
  {
    i == 0 || ws[i] != ws[i - 1]
  }

  /** The elements the dedup loop keeps, given for every prefix of the list. */
  function Dedup<T(==)>(ws: seq<T>): seq<T> {
    if |ws| <= 1 then ws
    else
      var kept := Dedup(ws[..|ws| - 1]);
      if KeepAt(ws, |ws| - 1) then kept + [ws[|ws| - 1]] else kept
  }

  /** Reference definition reading the list from the front: an element is
      kept unless the element right after it equals it, so each run of equal
      elements collapses to one copy. */
  function Collapse<T(==)>(ws: seq<T>): seq<T> {
    if |ws| <= 1 then ws
    else if ws[0] == ws[1] then Collapse(ws[1..])
    else [ws[0]] + Collapse(ws[1..])
  }

  /** Reference definition of the rule stated in terms of the output: an
      element is kept unless it equals the last element kept so far. */
  function KeepVsKept<T(==)>(ws: seq<T>): seq<T> {
    if ws == [] then []
    else
      var acc := KeepVsKept(ws[..|ws| - 1]);
      if acc == [] || acc[|acc| - 1] != ws[|ws| - 1] then acc + [ws[|ws| - 1]] else acc
  }

  /** `a` is a subsequence of `b`: `b` with some elements deleted. */
  predicate IsSubsequence<T(==)>(a: seq<T>, b: seq<T>)
    decreases |b|
  {
    if a == [] then true
    else if b == [] then false
    else (a[|a| - 1] == b[|b| - 1] && IsSubsequence(a[..|a| - 1], b[..|b| - 1]))
         || IsSubsequence(a, b[..|b| - 1])
  }

  /** The positions of `ws` that `KeepAt` selects, in increasing order. */
  function KeptIndices<T(==)>(ws: seq<T>): seq<nat> {
    if ws == [] then []
    else
      var pre := KeptIndices(ws[..|ws| - 1]);
      if KeepAt(ws, |ws| - 1) then pre + [|ws| - 1] else pre
  }

  /** With `words = text.split()`:
      `' '.join(w for i, w in enumerate(words) if i == 0 or w != words[i - 1])`. */
  function RemoveRepeated(text: string): string {
    Join(Dedup(Split(text)), " ")
  }

  /** The dedup keeps the first and the last element of a non-empty list. */
  lemma {:induction false} DedupEnds<T>(ws: seq<T>)
    requires ws != []
    ensures Dedup(ws) != []
    ensures Dedup(ws)[0] == ws[0]
    ensures Dedup(ws)[|Dedup(ws)| - 1] == ws[|ws| - 1]
  {
    if |ws| > 1 {
      DedupEnds(ws[..|ws| - 1]);
    }
  }

  /** The kept elements never hold two equal neighbours. */
  lemma {:induction false} DedupNoAdjacentDup<T>(ws: seq<T>)
    ensures NoAdjacentDup(Dedup(ws))
  {
    if |ws| > 1 {
      var pre := ws[..|ws| - 1];
      DedupNoAdjacentDup(pre);
      DedupEnds(pre);
    }
  }

  /** A list without equal neighbours is left as it is. */
  lemma {:induction false} DedupFixpoint<T>(ws: seq<T>)
    requires NoAdjacentDup(ws)
    ensures Dedup(ws) == ws
  {
    if |ws| > 1 {
      var pre := ws[..|ws| - 1];
      DedupFixpoint(pre);
      assert ws == pre + [ws[|ws| - 1]];
    }
  }

  lemma DedupIdempotent<T>(ws: seq<T>)
    ensures Dedup(Dedup(ws)) == Dedup(ws)
  {
    DedupNoAdjacentDup(ws);
    DedupFixpoint(Dedup(ws));
  }

  lemma {:induction false} SubsequenceDropLast<T>(a: seq<T>, b: seq<T>, x: T)
    requires IsSubsequence(a, b)
    ensures IsSubsequence(a, b + [x]) && IsSubsequence(a + [x], b + [x])
  {
    assert (b + [x])[..|b|] == b;
    assert (a + [x])[..|a|] == a;
  }

  /** Every element of a subsequence occurs in the larger list. */
  lemma {:induction false} SubsequenceElements<T>(a: seq<T>, b: seq<T>)
    requires IsSubsequence(a, b)
    ensures forall x :: x in a ==> x in b
    decreases |b|
  {
    if a != [] {
      var b' := b[..|b| - 1];
      if a[|a| - 1] == b[|b| - 1] && IsSubsequence(a[..|a| - 1], b') {
        SubsequenceElements(a[..|a| - 1], b');
        assert a == a[..|a| - 1] + [a[|a| - 1]];
        assert b == b' + [b[|b| - 1]];
      } else {
        SubsequenceElements(a, b');
        assert b == b' + [b[|b| - 1]];
      }
    }
  }

  /** The kept elements are the input with some elements deleted. */
  lemma {:induction false} DedupSubsequence<T>(ws: seq<T>)
    ensures IsSubsequence(Dedup(ws), ws)
  {
    if |ws| == 1 {
      assert ws[..0] == [];
    } else if |ws| > 1 {
      var pre, x := ws[..|ws| - 1], ws[|ws| - 1];
      DedupSubsequence(pre);
      SubsequenceDropLast(Dedup(pre), pre, x);
      assert pre + [x] == ws;
      assert Dedup(ws) == if KeepAt(ws, |ws| - 1) then Dedup(pre) + [x] else Dedup(pre);
    }
  }

  /** The output is exactly the input at the positions `KeepAt` selects, in
      order: every dropped element equals the one before it in the input. */
  lemma {:induction false} DedupIsKeptPositions<T>(ws: seq<T>)
    ensures |KeptIndices(ws)| == |Dedup(ws)|
    ensures forall k :: 0 <= k < |Dedup(ws)| ==>
      KeptIndices(ws)[k] < |ws| && Dedup(ws)[k] == ws[KeptIndices(ws)[k]]
    ensures forall k :: 0 < k < |Dedup(ws)| ==> KeptIndices(ws)[k - 1] < KeptIndices(ws)[k]
    ensures forall i :: 0 <= i < |ws| ==> (i in KeptIndices(ws) <==> KeepAt(ws, i))
  {
    if |ws| == 1 {
      assert ws[..0] == [];
      assert KeptIndices(ws) == [0];
    } else if |ws| > 1 {
      var pre := ws[..|ws| - 1];
      DedupIsKeptPositions(pre);
      forall i | 0 <= i < |pre| ensures KeepAt(pre, i) == KeepAt(ws, i) {
      }
    }
  }

  /** Extending the reference collapse by one element follows the loop's rule. */
  lemma {:induction false} CollapseSnoc<T>(ws: seq<T>, x: T)
    requires ws != []
    ensures Collapse(ws + [x]) ==
      if ws[|ws| - 1] == x then Collapse(ws) else Collapse(ws) + [x]
  {
    if |ws| == 1 {
      assert (ws + [x])[1..] == [x];
    } else {
      assert (ws + [x])[1..] == ws[1..] + [x];
      CollapseSnoc(ws[1..], x);
    }
  }

  /** A run of copies of `x` right after `x` collapses into that `x`. */
  lemma {:induction false} CollapseLeadingRepeats<T>(x: T, e: seq<T>, r: seq<T>)
    requires forall k :: 0 <= k < |e| ==> e[k] == x
    ensures Collapse([x] + e + r) == Collapse([x] + r)
  {
    if e != [] {
      assert ([x] + e + r)[1..] == [x] + e[1..] + r;
      CollapseLeadingRepeats(x, e[1..], r);
    } else {
      assert [x] + e + r == [x] + r;
    }
  }

  /** Copies of `x` right after `x` are all dropped. */
  lemma DedupSkipsRepeats<T>(x: T, e: seq<T>, r: seq<T>)
    requires forall k :: 0 <= k < |e| ==> e[k] == x
    ensures Dedup([x] + e + r) == Dedup([x] + r)
  {
    DedupIsCollapse([x] + e + r);
    DedupIsCollapse([x] + r);
    CollapseLeadingRepeats(x, e, r);
  }

  /** Comparing with the previous input element (the code) and collapsing
      runs read from the front agree. */
  lemma {:induction false} DedupIsCollapse<T>(ws: seq<T>)
    ensures Dedup(ws) == Collapse(ws)
  {
    if |ws| > 1 {
      var pre := ws[..|ws| - 1];
      DedupIsCollapse(pre);
      CollapseSnoc(pre, ws[|ws| - 1]);
      assert pre + [ws[|ws| - 1]] == ws;
    }
  }

  /** Comparing with the previous input element (the code) and comparing with
      the last kept element agree. */
  lemma {:induction false} DedupIsKeepVsKept<T>(ws: seq<T>)
    ensures Dedup(ws) == KeepVsKept(ws)
  {
    if |ws| == 1 {
      assert ws[..0] == [];
    } else if |ws| > 1 {
      var pre := ws[..|ws| - 1];
      DedupIsKeepVsKept(pre);
      DedupEnds(pre);
    }
  }

  /** Every kept element occurs in the input. */
  lemma DedupElements<T>(ws: seq<T>)
    ensures forall x :: x in Dedup(ws) ==> x in ws
  {
    DedupSubsequence(ws);
    SubsequenceElements(Dedup(ws), ws);
  }

  /** The words of the result are the deduplicated words of the input. */
  lemma RemoveRepeatedSplit(text: string)
    ensures Split(RemoveRepeated(text)) == Dedup(Split(text))
  {
    var ws := Split(text);
    DedupElements(ws);
    forall k | 0 <= k < |Dedup(ws)| ensures IsWord(Dedup(ws)[k]) {
      assert Dedup(ws)[k] in ws;
    }
    SplitJoin(Dedup(ws));
  }

  /** The result has no two adjacent equal words. */
  lemma RemoveRepeatedNoAdjacent(text: string)
    ensures NoAdjacentDup(Split(RemoveRepeated(text)))
  {
    RemoveRepeatedSplit(text);
    DedupNoAdjacentDup(Split(text));
  }

  /** The result's words are a subsequence of the input's words that keeps
      the first one. */
  lemma RemoveRepeatedSubsequence(text: string)
    ensures IsSubsequence(Split(RemoveRepeated(text)), Split(text))
    ensures Split(text) != [] ==>
      Split(RemoveRepeated(text)) != [] && Split(RemoveRepeated(text))[0] == Split(text)[0]
  {
    RemoveRepeatedSplit(text);
    DedupSubsequence(Split(text));
    if Split(text) != [] {
      DedupEnds(Split(text));
    }
  }

  /** Applying the cleanup twice gives the same text as applying it once. */
  lemma RemoveRepeatedIdempotent(text: string)
    ensures RemoveRepeated(RemoveRepeated(text)) == RemoveRepeated(text)
  {
    RemoveRepeatedSplit(text);
    DedupIdempotent(Split(text));
  }

  /** An empty or all-whitespace text yields the empty string, and only such a text. */
  lemma RemoveRepeatedEmpty(text: string)
    ensures RemoveRepeated(text) == "" <==> AllSpace(text)
  {
    SplitEmptyIff(text);
    var ws := Split(text);
    if ws != [] {
      DedupEnds(ws);
      var d := Dedup(ws);
      assert IsWord(d[0]);
      if |d| > 1 {
        assert Join(d, " ") == d[0] + " " + Join(d[1..], " ");
      }
    }
  }

  /** The source loop: `cleaned_words` grows by `append` over `enumerate(words)`. */
  method RemoveRepeatedWords(text: string) returns (result: string)
    ensures result == RemoveRepeated(text)
  {
    var words := Split(text);
    var cleanedWords: seq<string> := [];
    for i := 0 to |words|
      invariant cleanedWords == Dedup(words[..i])
    {
      assert words[..i + 1][..i] == words[..i];
      if i == 0 || words[i] != words[i - 1] {
        cleanedWords := cleanedWords + [words[i]];
      }
    }
    assert words[..|words|] == words;
    result := Join(cleanedWords, " ");
  }

  /** The example "the the cat sat sat down" gives "the cat sat down". */
  lemma ExampleTheCat()
    ensures RemoveRepeated("the the cat sat sat down") == "the cat sat down"
  {
    var ws := ["the", "the", "cat", "sat", "sat", "down"];
    ExampleJoinInput();
    ExampleAreWords(ws);
    SplitJoin(ws);
    ExampleDedup(ws);
    ExampleJoinOutput();
  }

  lemma JoinSatDown()
    ensures Join(["sat", "down"], " ") == "sat down"
  {
    assert ["sat", "down"][1..] == ["down"];
  }

  lemma ExampleJoinOutput()
    ensures Join(["the", "cat", "sat", "down"], " ") == "the cat sat down"
  {
    JoinSatDown();
    assert ["the", "cat", "sat", "down"][1..] == ["cat", "sat", "down"];
    assert ["cat", "sat", "down"][1..] == ["sat", "down"];
  }

  lemma ExampleJoinTail()
    ensures Join(["cat", "sat", "sat", "down"], " ") == "cat sat sat down"
  {
    JoinSatDown();
    assert ["cat", "sat", "sat", "down"][1..] == ["sat", "sat", "down"];
    assert ["sat", "sat", "down"][1..] == ["sat", "down"];
  }

  lemma ExampleJoinInput()
    ensures Join(["the", "the", "cat", "sat", "sat", "down"], " ") == "the the cat sat sat down"
  {
    ExampleJoinTail();
    assert ["the", "the", "cat", "sat", "sat", "down"][1..] == ["the", "cat", "sat", "sat", "down"];
    assert ["the", "cat", "sat", "sat", "down"][1..] == ["cat", "sat", "sat", "down"];
  }

  lemma ExampleAreWords(ws: seq<string>)
    requires ws == ["the", "the", "cat", "sat", "sat", "down"]
    ensures forall k :: 0 <= k < |ws| ==> IsWord(ws[k])
  {
    assert IsWord("the") && IsWord("cat") && IsWord("sat") && IsWord("down");
  }

  lemma ExampleDedup(ws: seq<string>)
    requires ws == ["the", "the", "cat", "sat", "sat", "down"]
    ensures Dedup(ws) == ["the", "cat", "sat", "down"]
  {
    assert Dedup(ws[..2]) == ["the"] by { assert ws[..2][..1] == ["the"]; }
    assert Dedup(ws[..3]) == ["the", "cat"] by { assert ws[..3][..2] == ws[..2]; }
    assert Dedup(ws[..4]) == ["the", "cat", "sat"] by { assert ws[..4][..3] == ws[..3]; }
    assert Dedup(ws[..5]) == ["the", "cat", "sat"] by { assert ws[..5][..4] == ws[..4]; }
    assert ws[..6][..5] == ws[..5];
    assert ws[..6] == ws;
  }
}
