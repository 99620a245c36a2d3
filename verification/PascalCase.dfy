/** `toPascalCase`, the category-label helper: split on single spaces, upper-case
    the first character of every word, join again with single spaces. */
module PascalCase {

  /** `String.prototype.toUpperCase` on one character, for ASCII letters. */
  function Upper(c: char): (u: char)
  {
    if 'a' <= c <= 'z' then (c as int - 32) as char else c
  }

  /** The index of the first space in s. */
  function FirstSpace(s: string): (k: nat)
    requires ' ' in s
    ensures k < |s| && s[k] == ' ' && ' ' !in s[..k]
  {
    if s[0] == ' ' then 0 else 1 + FirstSpace(s[1..])
  }

  /** `s.split(" ")`: the pieces between single spaces, empty pieces included;
      never empty itself, and no piece holds a space. */
  function Split(s: string): (words: seq<string>)
    ensures |words| >= 1
    ensures forall i :: 0 <= i < |words| ==> ' ' !in words[i]
    decreases |s|
  {
    if ' ' in s then
      var k := FirstSpace(s);
      [s[..k]] + Split(s[k + 1..])
    else [s]
  }

  /** `words.join(" ")`. */
  function Join(words: seq<string>): string
  {
    if words == [] then ""
    else if |words| == 1 then words[0]
    else words[0] + " " + Join(words[1..])
  }

  /** `word.charAt(0).toUpperCase() + word.slice(1)`; the empty word stays empty. */
  function Capitalize(word: string): string
  {
    if word == "" then "" else [Upper(word[0])] + word[1..]
  }

  /** `words.map(Capitalize)`. */
  function CapitalizeEach(words: seq<string>): (caps: seq<string>)
    ensures |caps| == |words|
    ensures forall i :: 0 <= i < |words| ==> caps[i] == Capitalize(words[i])
  {
    if words == [] then [] else [Capitalize(words[0])] + CapitalizeEach(words[1..])
  }

  function ToPascalCase(s: string): string
  {
    if s == "" then "" else Join(CapitalizeEach(Split(s)))
  }

  /** Position i begins a word: it is the first position or follows a space. */
  predicate StartsWord(s: string, i: int)
    requires 0 <= i < |s|
  {
    i == 0 || s[i - 1] == ' '
  }

  /** r is s with the character at every word start upper-cased and nothing else changed. */
  ghost predicate CapitalizesWordStarts(s: string, r: string)
  {
    && |r| == |s|
    && forall i :: 0 <= i < |s| ==> r[i] == if StartsWord(s, i) then Upper(s[i]) else s[i]
  }

  lemma UpperSpace(c: char)
    ensures Upper(c) == ' ' <==> c == ' '
    ensures Upper(Upper(c)) == Upper(c)
  {
  }

  /** Joining a word in front of at least one more puts a single space after it. */
  lemma JoinCons(w: string, ws: seq<string>)
    requires |ws| >= 1
    ensures Join([w] + ws) == w + " " + Join(ws)
  {
    assert ([w] + ws)[1..] == ws;
  }

  /** A string with a space is its first word, that space, and the rest, and splits that way. */
  lemma SplitAtFirstSpace(s: string)
    requires ' ' in s
    ensures var k := FirstSpace(s);
      && s == s[..k] + " " + s[k + 1..]
      && Split(s) == [s[..k]] + Split(s[k + 1..])
  {
  }

  /** Splitting on spaces and joining with spaces gives the original string back. */
  lemma {:induction false} JoinSplit(s: string)
    ensures Join(Split(s)) == s
    decreases |s|
  {
    if ' ' in s {
      var k := FirstSpace(s);
      SplitAtFirstSpace(s);
      JoinSplit(s[k + 1..]);
      JoinCons(s[..k], Split(s[k + 1..]));
    }
  }

  /** The first space of a space-free word followed by a space and a tail is right after the word. */
  lemma {:induction false} FirstSpaceAfterWord(w: string, t: string)
    requires ' ' !in w
    ensures ' ' in w + " " + t && FirstSpace(w + " " + t) == |w|
  {
    var s := w + " " + t;
    assert s[|w|] == ' ';
    if w != [] {
      assert s[0] == w[0] && s[1..] == w[1..] + " " + t;
      FirstSpaceAfterWord(w[1..], t);
    }
  }

  /** Joining space-free words and splitting again gives the same words back. */
  lemma {:induction false} SplitJoin(words: seq<string>)
    requires |words| >= 1
    requires forall i :: 0 <= i < |words| ==> ' ' !in words[i]
    ensures Split(Join(words)) == words
  {
    if |words| > 1 {
      var w, rest := words[0], words[1..];
      assert words == [w] + rest;
      SplitJoin(rest);
      var t := Join(rest);
      var s := w + " " + t;
      assert Join(words) == s;
      FirstSpaceAfterWord(w, t);
      assert s[..|w|] == w && s[|w| + 1..] == t;
      assert Split(s) == [w] + Split(t);
    }
  }

  /** Capitalising a space-free word upper-cases its only word start. */
  lemma CapitalizeWord(w: string)
    requires ' ' !in w
    ensures CapitalizesWordStarts(w, Capitalize(w))
  {
    var r := Capitalize(w);
    forall i | 0 <= i < |w| ensures r[i] == if StartsWord(w, i) then Upper(w[i]) else w[i] {
      if i > 0 {
        assert w[i - 1] in w;
      }
    }
  }

  /** A capitalised first word, a space, and a correctly capitalised rest make a correctly
      capitalised whole. */
  lemma CapitalizeFront(w: string, t: string, rt: string)
    requires ' ' !in w
    requires CapitalizesWordStarts(t, rt)
    ensures CapitalizesWordStarts(w + " " + t, Capitalize(w) + " " + rt)
  {
    CapitalizeWord(w);
    var s, r, k := w + " " + t, Capitalize(w) + " " + rt, |w|;
    forall i | 0 <= i < |s| ensures r[i] == if StartsWord(s, i) then Upper(s[i]) else s[i] {
      if i < k {
        assert s[i] == w[i] && r[i] == Capitalize(w)[i];
        if i > 0 {
          assert s[i - 1] == w[i - 1];
        }
      } else if i > k {
        var j := i - k - 1;
        assert s[i] == t[j] && r[i] == rt[j];
        if j > 0 {
          assert s[i - 1] == t[j - 1];
        }
      }
    }
  }

  /** Split, capitalise and join, for a string with a space: its first word capitalised,
      a space, then the same done to the rest. */
  lemma PascalCaseStep(s: string)
    requires ' ' in s
    ensures var k := FirstSpace(s);
      && s == s[..k] + " " + s[k + 1..]
      && Join(CapitalizeEach(Split(s))) == Capitalize(s[..k]) + " " + Join(CapitalizeEach(Split(s[k + 1..])))
  {
    var k := FirstSpace(s);
    var tail := CapitalizeEach(Split(s[k + 1..]));
    SplitAtFirstSpace(s);
    assert ([s[..k]] + Split(s[k + 1..]))[1..] == Split(s[k + 1..]);
    JoinCons(Capitalize(s[..k]), tail);
  }

  lemma {:induction false} JoinCapitalizedSplit(s: string)
    ensures CapitalizesWordStarts(s, Join(CapitalizeEach(Split(s))))
    decreases |s|
  {
    if ' ' in s {
      var k := FirstSpace(s);
      PascalCaseStep(s);
      JoinCapitalizedSplit(s[k + 1..]);
      CapitalizeFront(s[..k], s[k + 1..], Join(CapitalizeEach(Split(s[k + 1..]))));
    } else {
      assert Join(CapitalizeEach(Split(s))) == Capitalize(s);
      CapitalizeWord(s);
    }
  }

  /** `toPascalCase` upper-cases exactly the first character of every space-separated
      word and keeps every other character, spaces included, where it was. */
  lemma PascalCaseCharacters(s: string)
    ensures CapitalizesWordStarts(s, ToPascalCase(s))
    ensures forall i :: 0 <= i < |s| ==> (ToPascalCase(s)[i] == ' ' <==> s[i] == ' ')
  {
    JoinCapitalizedSplit(s);
    forall i | 0 <= i < |s| ensures ToPascalCase(s)[i] == ' ' <==> s[i] == ' ' {
      UpperSpace(s[i]);
    }
  }

  /** The result has the same words as the input, each capitalised: the word count and the
      single-space separators survive. The empty-string guard changes nothing, since
      splitting "" gives one empty word. */
  lemma PascalCaseWords(s: string)
    ensures Split(ToPascalCase(s)) == CapitalizeEach(Split(s))
  {
    var words := Split(s);
    var caps := CapitalizeEach(words);
    forall i | 0 <= i < |caps| ensures ' ' !in caps[i] {
      if caps[i] != "" {
        UpperSpace(words[i][0]);
        assert caps[i] == [Upper(words[i][0])] + words[i][1..];
        assert ' ' !in words[i][1..];
      }
    }
    SplitJoin(caps);
    if s == "" {
      assert caps == [""];
    }
  }

  /** Applying `toPascalCase` a second time changes nothing. */
  lemma PascalCaseIdempotent(s: string)
    ensures ToPascalCase(ToPascalCase(s)) == ToPascalCase(s)
  {
    var r := ToPascalCase(s);
    PascalCaseCharacters(s);
    PascalCaseCharacters(r);
    var rr := ToPascalCase(r);
    forall i | 0 <= i < |r| ensures rr[i] == r[i] {
      UpperSpace(s[i]);
      if i > 0 {
        assert r[i - 1] == ' ' <==> s[i - 1] == ' ';
      }
    }
  }

  /** Two space-free words separated by one space come out as the two words capitalised. */
  lemma PascalCaseTwoWords(w: string, t: string)
    requires ' ' !in w && ' ' !in t
    ensures ToPascalCase(w + " " + t) == Capitalize(w) + " " + Capitalize(t)
  {
    var s := w + " " + t;
    assert Split(s) == [w, t] by {
      FirstSpaceAfterWord(w, t);
      SplitAtFirstSpace(s);
      assert s[..|w|] == w && s[|w| + 1..] == t;
    }
    var cw, ct := Capitalize(w), Capitalize(t);
    assert CapitalizeEach([w, t]) == [cw] + [ct] by {
      assert [w, t][1..] == [t];
    }
    JoinCons(cw, [ct]);
  }

  /** The words of the example: space-free, and "men's clothing" once joined. */
  lemma ExampleWords()
    ensures ' ' !in "men's" && ' ' !in "clothing"
    ensures "men's" + " " + "clothing" == "men's clothing"
  {
  }

  /** The example's words capitalised and joined: "Men's Clothing". */
  lemma ExampleCapitalized()
    ensures Capitalize("men's") + " " + Capitalize("clothing") == "Men's Clothing"
  {
    assert Upper('m') == 'M' && Upper('c') == 'C';
    assert Capitalize("men's") == "Men's" && Capitalize("clothing") == "Clothing";
    assert "Men's" + " " + "Clothing" == "Men's Clothing";
  }

  /** The example in the source's own comment: "men's clothing" becomes "Men's Clothing". */
  lemma PascalCaseExample()
    ensures ToPascalCase("men's clothing") == "Men's Clothing"
  {
    ExampleWords();
    PascalCaseTwoWords("men's", "clothing");
    ExampleCapitalized();
  }
}
