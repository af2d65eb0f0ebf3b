/**
 * The string operations of Python's `str` type that the generator relies on:
 * `split()` and `strip()` with no arguments, and `replace(old, new)`.
 */
module Text {

  /**
   * Python's whitespace (`str.isspace`, the separator of `split()` and what
   * `strip()` removes): the ASCII controls 0x09-0x0D and 0x1C-0x1F, the space,
   * and the Unicode spaces and separators after it.
   */
  predicate IsSpace(c: char) {
    ('\t' <= c <= '\r') || ('\U{1C}' <= c <= '\U{1F}') || c == ' '
    || c == '\U{85}' || c == '\U{A0}' || c == '\U{1680}'
    || ('\U{2000}' <= c <= '\U{200A}')
    || c == '\U{2028}' || c == '\U{2029}' || c == '\U{202F}' || c == '\U{205F}' || c == '\U{3000}'
  }

  /** No character of `s` is whitespace. */
  predicate NoSpace(s: string) {
    forall k :: 0 <= k < |s| ==> !IsSpace(s[k])
  }

  /** Every character of `s` is whitespace. */
  predicate AllSpace(s: string) {
    forall k :: 0 <= k < |s| ==> IsSpace(s[k])
  }


  /** All the strings of a list, one after another (`''.join(parts)`). */
  function Concat(parts: seq<string>): (r: string)
    ensures |r| >= (if parts == [] then 0 else |parts[0]|)
  {
    if parts == [] then "" else parts[0] + Concat(parts[1..])
  }

  /** The words of a list joined by one separator character (`c.join(words)`). */
  function Join(words: seq<string>, c: char): string {
    if words == [] then ""
    else if |words| == 1 then words[0]
    else words[0] + [c] + Join(words[1..], c)
  }

  /** The characters of `s` that are not whitespace, in order. */
  function RemoveSpace(s: string): (r: string)
    ensures |r| <= |s|
  {
    if s == [] then ""
    else (if IsSpace(s[0]) then "" else [s[0]]) + RemoveSpace(s[1..])
  }

  // ---------------------------------------------------------------- split

  /** The length of the run of whitespace that starts `s`. */
  function SepRun(s: string): (n: nat)
    ensures n <= |s|
  {
    if s != [] && IsSpace(s[0]) then 1 + SepRun(s[1..]) else 0
  }

  /** The length of the word (run of non-whitespace characters) that starts `s`. */
  function WordRun(s: string): (n: nat)
    ensures n <= |s|
  {
    if s != [] && !IsSpace(s[0]) then 1 + WordRun(s[1..]) else 0
  }

  /** The run is all whitespace and stops at the first other character. */
  lemma {:induction false} SepRunAllSep(s: string)
    ensures AllSpace(s[..SepRun(s)])
    ensures SepRun(s) < |s| ==> !IsSpace(s[SepRun(s)])
  {
    if s != [] && IsSpace(s[0]) {
      SepRunAllSep(s[1..]);
      assert s[..SepRun(s)] == [s[0]] + s[1..][..SepRun(s[1..])];
    }
  }

  /** The word has no whitespace and stops at the first whitespace character. */
  lemma {:induction false} WordRunNoSep(s: string)
    ensures NoSpace(s[..WordRun(s)])
    ensures WordRun(s) < |s| ==> IsSpace(s[WordRun(s)])
  {
    if s != [] && !IsSpace(s[0]) {
      WordRunNoSep(s[1..]);
      assert s[..WordRun(s)] == [s[0]] + s[1..][..WordRun(s[1..])];
    }
  }

  /** Every piece is non-empty and free of whitespace: what `split()` returns. */
  predicate Words(ws: seq<string>) {
    forall k :: 0 <= k < |ws| ==> ws[k] != [] && NoSpace(ws[k])
  }

  /** `s.split()`: the maximal runs of non-whitespace characters of `s`, in order. */
  function Split(s: string): seq<string>
    decreases |s|
  {
    var i := SepRun(s);
    if i == |s| then []
    else
      var n := WordRun(s[i..]);
      assert n > 0 by { SepRunAllSep(s); assert s[i..][0] == s[i]; }
      [s[i..i + n]] + Split(s[i + n..])
  }

  /** One step of a split: the first word, then the split of what follows it. */
  lemma {:induction false} SplitStep(s: string, i: nat, n: nat)
    requires i == SepRun(s) && i < |s| && n == WordRun(s[i..]) && n > 0
    ensures Split(s) == [s[i..i + n]] + Split(s[i + n..])
  {
  }

  /** The first word of a string that is not all whitespace: whitespace before it, none in it. */
  lemma {:induction false} FirstWord(s: string)
    requires SepRun(s) < |s|
    ensures var i := SepRun(s); var n := WordRun(s[i..]);
      0 < n && i + n <= |s| && AllSpace(s[..i]) && NoSpace(s[i..i + n])
  {
    var i := SepRun(s);
    SepRunAllSep(s);
    WordRunNoSep(s[i..]);
    assert s[i..][0] == s[i];
    assert s[i..][..WordRun(s[i..])] == s[i..i + WordRun(s[i..])];
  }

  lemma {:induction false} WordsCons(w: string, ws: seq<string>)
    requires w != [] && NoSpace(w) && Words(ws)
    ensures Words([w] + ws)
  {
    assert forall k :: 1 <= k < |ws| + 1 ==> ([w] + ws)[k] == ws[k - 1];
  }

  lemma {:induction false} WordsTail(ws: seq<string>)
    requires ws != [] && Words(ws)
    ensures ws[0] != [] && NoSpace(ws[0]) && Words(ws[1..]) && ws == [ws[0]] + ws[1..]
  {
    assert forall k :: 0 <= k < |ws| - 1 ==> ws[1..][k] == ws[k + 1];
  }

  /** The pieces of a split are non-empty and free of whitespace. */
  lemma {:induction false} SplitWords(s: string)
    ensures Words(Split(s))
    decreases |s|
  {
    var i := SepRun(s);
    if i < |s| {
      var n := WordRun(s[i..]);
      FirstWord(s);
      SplitStep(s, i, n);
      SplitWords(s[i + n..]);
      WordsCons(s[i..i + n], Split(s[i + n..]));
    }
  }

  lemma {:induction false} RemoveSpaceAppend(a: string, b: string)
    ensures RemoveSpace(a + b) == RemoveSpace(a) + RemoveSpace(b)
  {
    if a != [] {
      assert (a + b)[1..] == a[1..] + b;
      RemoveSpaceAppend(a[1..], b);
    } else {
      assert a + b == b;
    }
  }

  lemma {:induction false} RemoveSpaceAllSep(s: string)
    requires AllSpace(s)
    ensures RemoveSpace(s) == []
  {
    if s != [] {
      RemoveSpaceAllSep(s[1..]);
    }
  }

  lemma {:induction false} RemoveSpaceNoSep(s: string)
    requires NoSpace(s)
    ensures RemoveSpace(s) == s
  {
    if s != [] {
      RemoveSpaceNoSep(s[1..]);
    }
  }

  /** Whitespace, then a word, then the rest: removing the whitespace keeps the word. */
  lemma {:induction false} RemoveSpaceAroundWord(s: string, i: nat, n: nat)
    requires i + n <= |s| && AllSpace(s[..i]) && NoSpace(s[i..i + n])
    ensures RemoveSpace(s) == s[i..i + n] + RemoveSpace(s[i + n..])
  {
    var pre, word, rest := s[..i], s[i..i + n], s[i + n..];
    assert s == (pre + word) + rest;
    RemoveSpaceAppend(pre + word, rest);
    RemoveSpaceAppend(pre, word);
    RemoveSpaceAllSep(pre);
    RemoveSpaceNoSep(word);
    assert RemoveSpace(pre + word) == word;
  }

  lemma {:induction false} ConcatCons(w: string, ws: seq<string>)
    ensures Concat([w] + ws) == w + Concat(ws)
  {
    assert ([w] + ws)[1..] == ws;
  }

  /** Splitting loses exactly the whitespace: the words, concatenated, are the input without it. */
  lemma {:induction false} SplitKeepsAllText(s: string)
    ensures Concat(Split(s)) == RemoveSpace(s)
    decreases |s|
  {
    var i := SepRun(s);
    if i == |s| {
      SepRunAllSep(s);
      assert s[..i] == s;
      RemoveSpaceAllSep(s);
    } else {
      var n := WordRun(s[i..]);
      FirstWord(s);
      SplitStep(s, i, n);
      SplitKeepsAllText(s[i + n..]);
      ConcatCons(s[i..i + n], Split(s[i + n..]));
      RemoveSpaceAroundWord(s, i, n);
    }
  }

  lemma {:induction false} SepRunCons(c: char, s: string)
    requires IsSpace(c)
    ensures SepRun([c] + s) == 1 + SepRun(s)
  {
    assert ([c] + s)[1..] == s;
  }

  /** A leading whitespace character does not change the split. */
  lemma {:induction false} SplitSkipsSep(c: char, s: string)
    requires IsSpace(c)
    ensures Split([c] + s) == Split(s)
  {
    var t := [c] + s;
    var i := SepRun(s);
    SepRunCons(c, s);
    if i < |s| {
      assert t[i + 1..] == s[i..];
      SplitAfterRun(t, s, i + 1, i);
    }
  }

  /** Two strings whose text after the leading whitespace agrees split alike. */
  lemma {:induction false} SplitAfterRun(t: string, s: string, j: nat, i: nat)
    requires j == SepRun(t) && i == SepRun(s)
    requires i < |s| && j <= |t| && t[j..] == s[i..]
    ensures Split(t) == Split(s)
  {
    var n := WordRun(s[i..]);
    FirstWord(s);
    SlicesAgree(t, s, j, i, n);
    SplitStep(s, i, n);
    SplitStep(t, j, n);
  }

  lemma {:induction false} SlicesAgree(t: string, s: string, j: nat, i: nat, n: nat)
    requires i + n <= |s| && j <= |t| && t[j..] == s[i..]
    ensures j + n <= |t| && t[j..j + n] == s[i..i + n] && t[j + n..] == s[i + n..]
  {
    assert t[j..j + n] == t[j..][..n];
    assert s[i..i + n] == s[i..][..n];
    assert t[j + n..] == t[j..][n..];
    assert s[i + n..] == s[i..][n..];
  }

  /** A word followed by whitespace (or by nothing) is read back whole. */
  lemma {:induction false} WordRunOfWord(w: string, t: string)
    requires NoSpace(w)
    requires t == [] || IsSpace(t[0])
    ensures WordRun(w + t) == |w|
  {
    if w != [] {
      assert (w + t)[1..] == w[1..] + t;
      WordRunOfWord(w[1..], t);
    } else {
      assert w + t == t;
    }
  }

  /** A non-empty word followed by whitespace (or by nothing) is split off first. */
  lemma {:induction false} SplitWord(w: string, t: string)
    requires w != [] && NoSpace(w)
    requires t == [] || IsSpace(t[0])
    ensures Split(w + t) == [w] + Split(t)
  {
    var s := w + t;
    assert s[0] == w[0];
    assert SepRun(s) == 0;
    WordRunOfWord(w, t);
    assert s[0..] == s;
    SlicesAgree(s, s, 0, 0, |w|);
    assert s[..|w|] == w && s[|w|..] == t;
    SplitStep(s, 0, |w|);
  }

  lemma {:induction false} JoinCons(ws: seq<string>, c: char)
    requires |ws| >= 2
    ensures Join(ws, c) == ws[0] + ([c] + Join(ws[1..], c))
  {
  }

  /** Splitting undoes joining with one whitespace character, for non-empty words without whitespace. */
  lemma {:induction false} SplitJoinWords(words: seq<string>, c: char)
    requires IsSpace(c) && Words(words)
    ensures Split(Join(words, c)) == words
  {
    if words != [] {
      var w := words[0];
      WordsTail(words);
      if |words| == 1 {
        assert Join(words, c) == w + [];
        SplitWord(w, []);
      } else {
        JoinCons(words, c);
        SplitJoinStep(w, c, Join(words[1..], c));
        SplitJoinWords(words[1..], c);
      }
    }
  }

  lemma {:induction false} SplitJoinStep(w: string, c: char, rest: string)
    requires IsSpace(c) && w != [] && NoSpace(w)
    ensures Split(w + ([c] + rest)) == [w] + Split(rest)
  {
    SplitWord(w, [c] + rest);
    SplitSkipsSep(c, rest);
  }

  /**
   * `seps[0] + words[0] + seps[1] + … + words[n-1] + seps[n]`: words laid out
   * between the stretches of a string that lie around them.
   */
  function Interleave(words: seq<string>, seps: seq<string>): string
    requires |seps| == |words| + 1
  {
    if words == [] then seps[0] else seps[0] + words[0] + Interleave(words[1..], seps[1..])
  }

  /** Whitespace stretches for `n` words: any amount at the ends, at least one character between two words. */
  predicate Gaps(seps: seq<string>, n: nat) {
    |seps| == n + 1
    && (forall k :: 0 <= k < |seps| ==> AllSpace(seps[k]))
    && (forall k :: 0 < k < n ==> seps[k] != [])
  }

  lemma {:induction false} InterleaveCons(words: seq<string>, seps: seq<string>)
    requires |seps| == |words| + 1 && words != []
    ensures Interleave(words, seps) == seps[0] + (words[0] + Interleave(words[1..], seps[1..]))
  {
  }

  lemma {:induction false} GapsTail(seps: seq<string>, n: nat)
    requires Gaps(seps, n) && n > 0
    ensures Gaps(seps[1..], n - 1) && AllSpace(seps[0])
    ensures n > 1 ==> seps[1..][0] != []
  {
    assert n > 1 ==> seps[1..][0] == seps[1];
  }

  lemma {:induction false} GapsCons(sep: string, seps: seq<string>, n: nat)
    requires AllSpace(sep) && Gaps(seps, n) && (n > 0 ==> seps[0] != [])
    ensures Gaps([sep] + seps, n + 1)
  {
    var all := [sep] + seps;
    assert forall k :: 0 < k < |all| ==> all[k] == seps[k - 1];
  }

  /** What follows a word in a laid-out string is empty or starts with whitespace. */
  lemma {:induction false} InterleaveHead(words: seq<string>, seps: seq<string>)
    requires Gaps(seps, |words|) && (words != [] ==> seps[0] != [])
    ensures var t := Interleave(words, seps); t == [] || IsSpace(t[0])
  {
    if words != [] {
      InterleaveCons(words, seps);
    }
  }

  /** Leading whitespace, however much, does not change the split. */
  lemma {:induction false} SplitSkipsSpace(sep: string, s: string)
    requires AllSpace(sep)
    ensures Split(sep + s) == Split(s)
    decreases |sep|
  {
    if sep == [] {
      assert sep + s == s;
    } else {
      assert sep + s == [sep[0]] + (sep[1..] + s);
      SplitSkipsSpace(sep[1..], s);
      SplitSkipsSep(sep[0], sep[1..] + s);
    }
  }

  /**
   * `split()` of any string made of non-empty whitespace-free words, separated
   * by whitespace runs of any length and with any whitespace at either end,
   * gives back exactly those words.
   */
  lemma {:induction false} SplitInterleave(words: seq<string>, seps: seq<string>)
    requires Words(words) && Gaps(seps, |words|)
    ensures Split(Interleave(words, seps)) == words
    decreases |words|
  {
    if words == [] {
      SplitSkipsSpace(seps[0], []);
      assert seps[0] + [] == seps[0];
    } else {
      WordsTail(words);
      GapsTail(seps, |words|);
      SplitInterleave(words[1..], seps[1..]);
      InterleaveHead(words[1..], seps[1..]);
      SplitWordAfterSpace(seps[0], words[0], Interleave(words[1..], seps[1..]));
      InterleaveCons(words, seps);
    }
  }

  lemma {:induction false} SplitWordAfterSpace(sep: string, w: string, rest: string)
    requires AllSpace(sep) && w != [] && NoSpace(w) && (rest == [] || IsSpace(rest[0]))
    ensures Split(sep + (w + rest)) == [w] + Split(rest)
  {
    SplitWord(w, rest);
    SplitSkipsSpace(sep, w + rest);
  }

  /** The whitespace stretches around the words of `s`, in order. */
  function SepsOf(s: string): (seps: seq<string>)
    ensures |seps| == |Split(s)| + 1
    decreases |s|
  {
    var i := SepRun(s);
    if i == |s| then [s]
    else
      var n := WordRun(s[i..]);
      assert n > 0 by { SepRunAllSep(s); assert s[i..][0] == s[i]; }
      [s[..i]] + SepsOf(s[i + n..])
  }

  lemma {:induction false} SepsOfStep(s: string, i: nat, n: nat)
    requires i == SepRun(s) && i < |s| && n == WordRun(s[i..]) && n > 0
    ensures SepsOf(s) == [s[..i]] + SepsOf(s[i + n..])
  {
  }

  /** The first stretch is the leading whitespace. */
  lemma {:induction false} SepsOfHead(s: string)
    ensures SepsOf(s)[0] == s[..SepRun(s)]
  {
    var i := SepRun(s);
    if i == |s| {
      assert s[..i] == s;
    } else {
      FirstWord(s);
      SepsOfStep(s, i, WordRun(s[i..]));
    }
  }

  /** What follows the first word is empty or starts with whitespace, so its own leading run is not empty. */
  lemma {:induction false} AfterFirstWord(s: string, i: nat, n: nat)
    requires i == SepRun(s) && i < |s| && n == WordRun(s[i..])
    ensures i + n <= |s|
    ensures var rest := s[i + n..]; rest != [] ==> SepRun(rest) > 0
  {
    FirstWord(s);
    WordRunNoSep(s[i..]);
    var rest := s[i + n..];
    if rest != [] {
      assert rest[0] == s[i..][n];
    }
  }

  /** The stretches around the words of `s` are what `Gaps` allows. */
  lemma {:induction false} SepsOfGaps(s: string)
    ensures Gaps(SepsOf(s), |Split(s)|)
    decreases |s|
  {
    var i := SepRun(s);
    SepRunAllSep(s);
    if i == |s| {
      assert s[..i] == s;
    } else {
      var n := WordRun(s[i..]);
      var rest := s[i + n..];
      FirstWord(s);
      AfterFirstWord(s, i, n);
      SplitStep(s, i, n);
      SepsOfStep(s, i, n);
      SepsOfGaps(rest);
      SepsOfHead(rest);
      GapsCons(s[..i], SepsOf(rest), |Split(rest)|);
    }
  }

  /** Laying the words of `s` out between its stretches gives `s` back. */
  lemma {:induction false} SepsOfReassembles(s: string)
    ensures Interleave(Split(s), SepsOf(s)) == s
    decreases |s|
  {
    var i := SepRun(s);
    if i == |s| {
      assert s[..i] == s;
    } else {
      var n := WordRun(s[i..]);
      var rest := s[i + n..];
      FirstWord(s);
      SplitStep(s, i, n);
      SepsOfStep(s, i, n);
      SepsOfReassembles(rest);
      InterleaveCons(Split(s), SepsOf(s));
      Reassemble(s, i, n, Split(s), SepsOf(s), Split(rest), SepsOf(rest));
    }
  }

  lemma {:induction false} Reassemble(s: string, i: nat, n: nat, ws: seq<string>, seps: seq<string>,
                                      ws': seq<string>, seps': seq<string>)
    requires i + n <= |s| && ws == [s[i..i + n]] + ws' && seps == [s[..i]] + seps'
    requires |seps'| == |ws'| + 1 && Interleave(ws', seps') == s[i + n..]
    ensures seps[0] + (ws[0] + Interleave(ws[1..], seps[1..])) == s
  {
    assert ws[1..] == ws' && seps[1..] == seps';
    assert s == s[..i] + (s[i..i + n] + s[i + n..]);
  }

  /**
   * Every string is its split words laid out between whitespace stretches as
   * `Gaps` allows; with `SplitInterleave` this pins `split()` down on every input.
   */
  lemma {:induction false} SplitDecomposes(s: string)
    ensures Gaps(SepsOf(s), |Split(s)|)
    ensures Interleave(Split(s), SepsOf(s)) == s
  {
    SepsOfGaps(s);
    SepsOfReassembles(s);
  }

  /** Runs of mixed whitespace between and around words are all dropped. */
  lemma {:induction false} SplitExample()
    ensures Split(" \tui  core\n") == ["ui", "core"]
  {
    var words, seps := ["ui", "core"], [" \t", "  ", "\n"];
    assert Words(words) by {
      assert NoSpace(words[0]) && NoSpace(words[1]);
    }
    assert Gaps(seps, 2) by {
      assert AllSpace(seps[0]) && AllSpace(seps[1]) && AllSpace(seps[2]);
    }
    assert Interleave(words, seps) == " \tui  core\n" by {
      assert Interleave(words[1..], seps[1..]) == "  core\n";
    }
    SplitInterleave(words, seps);
  }

  // ---------------------------------------------------------------- strip

  /** The length of the run of whitespace that ends `s`. */
  function TailSepRun(s: string): (n: nat)
    ensures n <= |s|
  {
    if s != [] && IsSpace(s[|s| - 1]) then 1 + TailSepRun(s[..|s| - 1]) else 0
  }

  lemma {:induction false} TailSepRunAllSep(s: string)
    ensures AllSpace(s[|s| - TailSepRun(s)..])
    ensures TailSepRun(s) < |s| ==> !IsSpace(s[|s| - 1 - TailSepRun(s)])
  {
    if s != [] && IsSpace(s[|s| - 1]) {
      var p := s[..|s| - 1];
      var m := TailSepRun(p);
      TailSepRunAllSep(p);
      assert TailSepRun(s) == m + 1;
      var tail, ptail := s[|s| - (m + 1)..], p[|p| - m..];
      forall k | 0 <= k < |tail|
        ensures IsSpace(tail[k])
      {
        if k < m {
          assert tail[k] == ptail[k];
        }
      }
    }
  }

  /** `s` without its leading whitespace. */
  function TrimLeft(s: string): string {
    s[SepRun(s)..]
  }

  /** `s` without its trailing whitespace. */
  function TrimRight(s: string): string {
    s[..|s| - TailSepRun(s)]
  }

  /** `s.strip()`: `s` without its leading and trailing whitespace. */
  function Strip(s: string): string {
    TrimRight(TrimLeft(s))
  }

  lemma {:induction false} TrimLeftFacts(s: string)
    ensures var i := SepRun(s);
      AllSpace(s[..i]) && (i < |s| ==> !IsSpace(TrimLeft(s)[0]))
  {
    SepRunAllSep(s);
    if SepRun(s) < |s| {
      assert TrimLeft(s)[0] == s[SepRun(s)];
    }
  }

  lemma {:induction false} TrimRightFacts(l: string)
    ensures var r := TrimRight(l);
      AllSpace(l[|r|..]) && (r != [] ==> !IsSpace(r[|r| - 1]))
  {
    TailSepRunAllSep(l);
    var r := TrimRight(l);
    if r != [] {
      assert r[|r| - 1] == l[|l| - 1 - TailSepRun(l)];
    }
  }

  lemma {:induction false} SliceOfSlice(s: string, i: nat, m: nat)
    requires i + m <= |s|
    ensures s[i..][..m] == s[i..i + m] && s[i..][m..] == s[i + m..]
  {
  }

  /**
   * What strip keeps: a contiguous slice of the input, everything before and
   * after it whitespace, and neither end of it whitespace.
   */
  lemma {:induction false} StripSlice(s: string)
    ensures var r, i := Strip(s), SepRun(s);
      i + |r| <= |s| && r == s[i..i + |r|]
      && AllSpace(s[..i]) && AllSpace(s[i + |r|..])
      && (r == [] || (!IsSpace(r[0]) && !IsSpace(r[|r| - 1])))
  {
    var i, l := SepRun(s), TrimLeft(s);
    var r := TrimRight(l);
    TrimLeftFacts(s);
    TrimRightFacts(l);
    SliceOfSlice(s, i, |r|);
    if r != [] {
      assert r[0] == l[0];
    }
  }

  /** A string without whitespace is its own strip; so is every word of a split. */
  lemma {:induction false} StripNoSpace(s: string)
    requires NoSpace(s)
    ensures Strip(s) == s
  {
    if s != [] {
      assert !IsSpace(s[0]) && !IsSpace(s[|s| - 1]);
      assert s[0..] == s;
    }
  }

  // ---------------------------------------------------------------- replace

  /**
   * `s.replace(pat, rep)`: every occurrence of `pat`, found left to right
   * without overlap, is replaced by `rep`. The generator only ever replaces
   * non-empty placeholders.
   */
  function ReplaceAll(s: string, pat: string, rep: string): (r: string)
    requires pat != []
    decreases |s|
  {
    if |s| < |pat| then s
    else if s[..|pat|] == pat then rep + ReplaceAll(s[|pat|..], pat, rep)
    else [s[0]] + ReplaceAll(s[1..], pat, rep)
  }

  /**
   * Steps of the scan, used by `Templates.ReplaceAllFills`, which checks
   * `replace` against filling the slots of a template:
   * a stretch without the first character of `pat` is copied unchanged.
   */
  lemma {:induction false} ReplaceAllSkip(a: string, b: string, pat: string, rep: string)
    requires pat != []
    requires forall k :: 0 <= k < |a| ==> a[k] != pat[0]
    ensures ReplaceAll(a + b, pat, rep) == a + ReplaceAll(b, pat, rep)
    decreases |a|
  {
    if a == [] {
      assert a + b == b;
    } else if |a + b| < |pat| {
      assert ReplaceAll(b, pat, rep) == b;
    } else {
      assert (a + b)[..|pat|][0] != pat[0];
      assert (a + b)[1..] == a[1..] + b;
      ReplaceAllSkip(a[1..], b, pat, rep);
    }
  }

  /** An occurrence at the front is replaced and the scan resumes after it. */
  lemma {:induction false} ReplaceAllHit(b: string, pat: string, rep: string)
    requires pat != []
    ensures ReplaceAll(pat + b, pat, rep) == rep + ReplaceAll(b, pat, rep)
  {
    assert (pat + b)[..|pat|] == pat;
    assert (pat + b)[|pat|..] == b;
  }
}
