/**
 The Python `str` operations the address generator relies on, over
 `string` (= `seq<char>`):
 - `s.split()` without arguments: break on runs of whitespace, dropping
   leading and trailing whitespace, never producing an empty token;
 - `s.lower()`, restricted to the ASCII letters A-Z;
 - `s.replace(c, "")`: delete every occurrence of one character.
 */
module PyText {

  /** Python's `str.isspace()` for one character: the characters on which
      the argument-less `str.split()` breaks a string. */
  predicate IsSpace(c: char)
  {
    || '\U{9}' <= c <= '\U{D}'
    || '\U{1C}' <= c <= '\U{20}'
    || c == '\U{85}' || c == '\U{A0}' || c == '\U{1680}'
    || '\U{2000}' <= c <= '\U{200A}'
    || c == '\U{2028}' || c == '\U{2029}' || c == '\U{202F}'
    || c == '\U{205F}' || c == '\U{3000}'
  }

  predicate NoSpace(s: string)
  {
    forall i :: 0 <= i < |s| ==> !IsSpace(s[i])
  }

  predicate AllSpace(s: string)
  {
    forall i :: 0 <= i < |s| ==> IsSpace(s[i])
  }

  /** A token as `str.split()` produces it: non-empty, no whitespace. */
  predicate IsWord(w: string)
  {
    w != [] && NoSpace(w)
  }

  // ---------------------------------------------------------------------
  // str.split()
  // ---------------------------------------------------------------------

  /** Length of the longest prefix of `s` made only of whitespace
      (`space`) or only of non-whitespace (`!space`). */
  function Run(s: string, space: bool): (k: nat)
    ensures k <= |s|
    ensures forall i :: 0 <= i < k ==> IsSpace(s[i]) == space
    ensures k < |s| ==> IsSpace(s[k]) != space
  {
    if s == [] || IsSpace(s[0]) != space then 0 else 1 + Run(s[1..], space)
  }

  /** A run that ends where the next character changes class. */
  lemma {:induction false} RunOfPrefix(a: string, b: string, space: bool)
    requires forall i :: 0 <= i < |a| ==> IsSpace(a[i]) == space
    requires b == [] || IsSpace(b[0]) != space
    ensures Run(a + b, space) == |a|
    decreases |a|
  {
    if a == [] {
      assert a + b == b;
    } else {
      assert (a + b)[0] == a[0];
      assert (a + b)[1..] == a[1..] + b;
      RunOfPrefix(a[1..], b, space);
    }
  }

  /** Python's `s.split()`: the maximal whitespace-free pieces of `s`, in order. */
  function Split(s: string): (r: seq<string>)
    ensures forall i :: 0 <= i < |r| ==> IsWord(r[i])
    ensures r == [] <==> AllSpace(s)
    decreases |s|
  {
    var k := Run(s, true);
    if k == |s| then []
    else
      var t := s[k..];
      var n := Run(t, false);
      assert n > 0 by {
        assert t[0] == s[k];
      }
      var w := t[..n];
      assert IsWord(w);
      var tail := Split(t[n..]);
      var r := [w] + tail;
      assert forall i :: 0 <= i < |r| ==> IsWord(r[i]) by {
        forall i | 0 <= i < |r|
          ensures IsWord(r[i])
        {
          if i > 0 {
            assert r[i] == tail[i - 1];
          }
        }
      }
      assert !AllSpace(s) by {
        assert !IsSpace(s[k]);
      }
      r
  }

  /** One unfolding of `Split` past a known run of whitespace and word. */
  lemma SplitAt(s: string, k: nat, n: nat)
    requires Run(s, true) == k < |s|
    requires Run(s[k..], false) == n
    ensures Split(s) == [s[k..][..n]] + Split(s[k..][n..])
  {
  }

  /** Splitting whitespace, a word, then text that starts a new token
      boundary yields that word followed by the split of the rest. */
  lemma SplitFirstWord(ws: string, w: string, rest: string)
    requires AllSpace(ws) && IsWord(w)
    requires rest == [] || IsSpace(rest[0])
    ensures Split(ws + w + rest) == [w] + Split(rest)
  {
    var t := w + rest;
    var s := ws + t;
    assert ws + w + rest == s;
    assert t[0] == w[0];
    RunOfPrefix(ws, t, true);
    RunOfPrefix(w, rest, false);
    assert s[|ws|..] == t;
    assert t[..|w|] == w;
    assert t[|w|..] == rest;
    SplitAt(s, |ws|, |w|);
  }

  /** Any string that is not all whitespace is leading whitespace, a word,
      and a remainder that is empty or starts with whitespace. */
  lemma FirstWord(s: string) returns (ws: string, w: string, rest: string)
    requires !AllSpace(s)
    ensures s == ws + w + rest
    ensures AllSpace(ws) && IsWord(w)
    ensures rest == [] || IsSpace(rest[0])
    ensures |rest| < |s|
  {
    var k := Run(s, true);
    var t := s[k..];
    var n := Run(t, false);
    ws, w, rest := s[..k], t[..n], t[n..];
    assert s == ws + w + rest;
  }

  /** Python's `" ".join(words)`. */
  function JoinWords(words: seq<string>): string
  {
    if words == [] then ""
    else if |words| == 1 then words[0]
    else words[0] + " " + JoinWords(words[1..])
  }

  /** One step of the round trip below: the first word comes off. */
  lemma SplitJoinStep(ws: string, words: seq<string>)
    requires AllSpace(ws)
    requires |words| >= 2 && IsWord(words[0])
    ensures Split(ws + JoinWords(words)) == [words[0]] + Split(" " + JoinWords(words[1..]))
  {
    var rest := " " + JoinWords(words[1..]);
    assert ws + JoinWords(words) == ws + words[0] + rest;
    SplitFirstWord(ws, words[0], rest);
  }

  /** `split` undoes `" ".join` on words, even after leading whitespace. */
  lemma {:induction false} SplitJoinAfterSpace(ws: string, words: seq<string>)
    requires AllSpace(ws)
    requires forall i :: 0 <= i < |words| ==> IsWord(words[i])
    ensures Split(ws + JoinWords(words)) == words
    decreases |words|
  {
    if words == [] {
      assert ws + JoinWords(words) == ws;
    } else if |words| == 1 {
      assert ws + JoinWords(words) == ws + words[0] + "";
      SplitFirstWord(ws, words[0], "");
    } else {
      var more := words[1..];
      assert words == [words[0]] + more;
      assert forall i :: 0 <= i < |more| ==> IsWord(more[i]) by {
        forall i | 0 <= i < |more|
          ensures IsWord(more[i])
        {
          assert more[i] == words[i + 1];
        }
      }
      assert AllSpace(" ");
      SplitJoinStep(ws, words);
      SplitJoinAfterSpace(" ", more);
    }
  }

  /** Round trip: `" ".join(ws).split() == ws` for every list of words. */
  lemma SplitJoin(words: seq<string>)
    requires forall i :: 0 <= i < |words| ==> IsWord(words[i])
    ensures Split(JoinWords(words)) == words
  {
    SplitJoinAfterSpace("", words);
    assert "" + JoinWords(words) == JoinWords(words);
  }

  /** Every non-whitespace character of `s`, in order. */
  function NonSpace(s: string): (r: string)
    ensures NoSpace(r)
    ensures |r| <= |s|
  {
    if s == [] then []
    else (if IsSpace(s[0]) then [] else [s[0]]) + NonSpace(s[1..])
  }

  /** Whitespace contributes nothing, other characters all of themselves. */
  lemma {:induction false} NonSpaceOfRuns(s: string)
    ensures AllSpace(s) ==> NonSpace(s) == []
    ensures NoSpace(s) ==> NonSpace(s) == s
  {
    if s != [] {
      NonSpaceOfRuns(s[1..]);
      assert s == [s[0]] + s[1..];
    }
  }

  lemma {:induction false} NonSpaceAppend(a: string, b: string)
    ensures NonSpace(a + b) == NonSpace(a) + NonSpace(b)
    decreases |a|
  {
    if a == [] {
      assert a + b == b;
    } else {
      assert (a + b)[1..] == a[1..] + b;
      NonSpaceAppend(a[1..], b);
    }
  }

  /** Python's `"".join(parts)`. */
  function Concat(parts: seq<string>): string
  {
    if parts == [] then "" else parts[0] + Concat(parts[1..])
  }

  lemma NonSpaceOfWord(ws: string, w: string, rest: string)
    requires AllSpace(ws) && NoSpace(w)
    ensures NonSpace(ws + w + rest) == w + NonSpace(rest)
  {
    NonSpaceAppend(ws + w, rest);
    NonSpaceAppend(ws, w);
    NonSpaceOfRuns(ws);
    NonSpaceOfRuns(w);
    assert NonSpace(ws + w) == [] + w;
    assert [] + w == w;
  }

  lemma ConcatCons(w: string, parts: seq<string>)
    ensures Concat([w] + parts) == w + Concat(parts)
  {
    assert ([w] + parts)[1..] == parts;
  }

  /** The first token comes off `split`, and its characters are the first
      non-whitespace characters of the string. */
  lemma SplitKeepsTextStep(s: string) returns (w: string, rest: string)
    requires !AllSpace(s)
    ensures |rest| < |s|
    ensures Split(s) == [w] + Split(rest)
    ensures NonSpace(s) == w + NonSpace(rest)
  {
    var ws;
    ws, w, rest := FirstWord(s);
    NonSpaceOfWord(ws, w, rest);
    SplitFirstWord(ws, w, rest);
  }

  /** `split` loses only whitespace: its tokens, glued together, are exactly
      the non-whitespace characters of the input. */
  lemma {:induction false} SplitKeepsText(s: string)
    ensures Concat(Split(s)) == NonSpace(s)
    decreases |s|
  {
    if !AllSpace(s) {
      var w, rest := SplitKeepsTextStep(s);
      SplitKeepsText(rest);
      ConcatCons(w, Split(rest));
    } else {
      NonSpaceOfRuns(s);
    }
  }

  /** In particular a string that splits into two tokens is those two
      tokens with whitespace around and between them. */
  lemma SplitPairKeepsText(s: string)
    requires |Split(s)| == 2
    ensures Split(s)[0] + Split(s)[1] == NonSpace(s)
  {
    var r := Split(s);
    SplitKeepsText(s);
    assert r[1..][1..] == [];
    assert Concat(r[1..]) == r[1] + Concat([]);
  }

  // ---------------------------------------------------------------------
  // str.lower()
  // ---------------------------------------------------------------------

  predicate IsUpper(c: char)
  {
    'A' <= c <= 'Z'
  }

  predicate IsLowerCase(s: string)
  {
    forall i :: 0 <= i < |s| ==> !IsUpper(s[i])
  }

  function LowerChar(c: char): char
  {
    if IsUpper(c) then (c as int - 'A' as int + 'a' as int) as char else c
  }

  /** Python's `s.lower()` on ASCII: each letter A-Z becomes the same letter
      in lower case, every other character is kept. */
  function Lower(s: string): (r: string)
    ensures |r| == |s|
    ensures IsLowerCase(r)
    ensures r == s <==> IsLowerCase(s)
    ensures forall i :: 0 <= i < |s| && !IsUpper(s[i]) ==> r[i] == s[i]
    ensures forall i :: 0 <= i < |s| && IsUpper(s[i]) ==>
              'a' <= r[i] <= 'z' && r[i] as int - 'a' as int == s[i] as int - 'A' as int
  {
    var r := seq(|s|, i requires 0 <= i < |s| => LowerChar(s[i]));
    assert !IsLowerCase(s) ==> r != s by {
      if !IsLowerCase(s) {
        var i :| 0 <= i < |s| && IsUpper(s[i]);
        assert r[i] != s[i];
      }
    }
    r
  }

  /** Lower-casing changes no character's whitespace class, nor whether it
      is the space character. */
  lemma LowerKeepsSpaces(s: string)
    ensures forall i :: 0 <= i < |s| ==> IsSpace(Lower(s)[i]) == IsSpace(s[i])
    ensures ' ' in Lower(s) <==> ' ' in s
    ensures AllSpace(Lower(s)) <==> AllSpace(s)
  {
    var r := Lower(s);
    if ' ' in r {
      var i :| 0 <= i < |r| && r[i] == ' ';
      assert s[i] == ' ';
    }
    if ' ' in s {
      var i :| 0 <= i < |s| && s[i] == ' ';
      assert r[i] == ' ';
    }
  }

  lemma LowerAppend(a: string, b: string)
    ensures Lower(a + b) == Lower(a) + Lower(b)
  {
  }

  function LowerEach(ss: seq<string>): (r: seq<string>)
    ensures |r| == |ss|
    ensures forall i :: 0 <= i < |ss| ==> r[i] == Lower(ss[i])
  {
    seq(|ss|, i requires 0 <= i < |ss| => Lower(ss[i]))
  }

  lemma SplitLowerStep(ws: string, w: string, rest: string)
    requires AllSpace(ws) && IsWord(w)
    requires rest == [] || IsSpace(rest[0])
    ensures Split(Lower(ws + w + rest)) == [Lower(w)] + Split(Lower(rest))
  {
    LowerAppend(ws + w, rest);
    LowerAppend(ws, w);
    LowerKeepsSpaces(ws);
    LowerKeepsSpaces(w);
    LowerKeepsSpaces(rest);
    SplitFirstWord(Lower(ws), Lower(w), Lower(rest));
  }

  lemma LowerEachCons(w: string, ss: seq<string>)
    ensures LowerEach([w] + ss) == [Lower(w)] + LowerEach(ss)
  {
  }

  /** The first token comes off `split` both before and after lower-casing. */
  lemma SplitLowerStepOf(s: string) returns (w: string, rest: string)
    requires !AllSpace(s)
    ensures |rest| < |s|
    ensures Split(s) == [w] + Split(rest)
    ensures Split(Lower(s)) == [Lower(w)] + Split(Lower(rest))
  {
    var ws;
    ws, w, rest := FirstWord(s);
    SplitLowerStep(ws, w, rest);
    SplitFirstWord(ws, w, rest);
  }

  /** Splitting commutes with lower-casing: `s.lower().split()` is the
      list of lower-cased tokens of `s.split()`. */
  lemma {:induction false} SplitLower(s: string)
    ensures Split(Lower(s)) == LowerEach(Split(s))
    decreases |s|
  {
    if !AllSpace(s) {
      var w, rest := SplitLowerStepOf(s);
      SplitLower(rest);
      LowerEachCons(w, Split(rest));
    } else {
      LowerKeepsSpaces(s);
    }
  }

  // ---------------------------------------------------------------------
  // str.replace(c, "")
  // ---------------------------------------------------------------------

  /** Python's `s.replace(c, "")` for a one-character `c`: `s` with every
      occurrence of `c` deleted and everything else kept in order. */
  function Remove(s: string, c: char): (r: string)
    ensures c !in r
    ensures |r| <= |s|
    ensures c !in s <==> r == s
    ensures forall x :: x != c ==> multiset(r)[x] == multiset(s)[x]
  {
    if s == [] then []
    else
      var rest := Remove(s[1..], c);
      assert s == [s[0]] + s[1..];
      if s[0] == c then rest else [s[0]] + rest
  }

  /** On a single character `replace` deletes it when it is `c` and keeps it
      otherwise. */
  lemma RemoveChar(x: char, c: char)
    ensures Remove([x], c) == if x == c then [] else [x]
  {
  }

  /** `replace` works piece by piece: removing from a concatenation is the
      concatenation of the removals, so the kept characters stay in order. */
  lemma {:induction false} RemoveAppend(a: string, b: string, c: char)
    ensures Remove(a + b, c) == Remove(a, c) + Remove(b, c)
    decreases |a|
  {
    if a != [] {
      assert (a + b)[1..] == a[1..] + b;
      assert (a + b)[0] == a[0];
      RemoveAppend(a[1..], b, c);
    } else {
      assert a + b == b;
    }
  }
}
