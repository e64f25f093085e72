/** The loop in `Slacker::sendMessage` that fills a template's blanks: the
    template is split on single spaces, every word that looks like a
    placeholder is replaced by the next answer (keeping one trailing
    punctuation character), and the words are joined again with single
    spaces. The answers are what the prompts return, one per placeholder,
    in order. */
module Placeholders {

  /** The characters `/[,.?!`*"':;]$/` accepts as trailing punctuation. */
  const Punctuation: set<char> := {',', '.', '?', '!', '`', '*', '"', '\'', ':', ';'}

  /** The characters that may end a placeholder: punctuation or `}`. */
  const Closers: set<char> := Punctuation + {'}'}

  /** The word with one final newline removed, if it has one: the text
      before the point where PCRE's `$` also matches. */
  function Chomp(w: string): string
  {
    if |w| >= 1 && w[|w| - 1] == '\n' then w[..|w| - 1] else w
  }

  /** `preg_match('/^{.*[},.?!`*"\':;]$/', w) == 1`: the word starts with `{`
      and ends in a closer. As in PCRE, `.` does not match a newline and `$`
      also matches just before a final newline. */
  function IsPlaceholder(w: string): (b: bool)
    ensures b ==> var t := Chomp(w); |t| >= 2 && t[0] == '{' && t[|t| - 1] in Closers
  {
    && |w| >= 2
    && w[0] == '{'
    && (|| (w[|w| - 1] in Closers && '\n' !in w[1..|w| - 1])
        || (|w| >= 3 && w[|w| - 1] == '\n' && w[|w| - 2] in Closers && '\n' !in w[1..|w| - 2]))
  }

  /** `preg_match('/[,.?!`*"\':;]$/', w) == 1`, with the same reading of `$`. */
  function EndsWithPunctuation(w: string): (b: bool)
    ensures b <==> var t := Chomp(w); |t| >= 1 && t[|t| - 1] in Punctuation
  {
    || (|w| >= 1 && w[|w| - 1] in Punctuation)
    || (|w| >= 2 && w[|w| - 1] == '\n' && w[|w| - 2] in Punctuation)
  }

  /** A placeholder word after filling: `substr_replace($word, $answer, 0)`
      gives the answer alone, then `substr($word, -1)` is appended when the
      word ends with punctuation. */
  function FillWord(w: string, answer: string): (r: string)
    requires IsPlaceholder(w)
    ensures answer <= r && |r| <= |answer| + 1
    ensures |r| == |answer| + 1 <==> EndsWithPunctuation(w)
    ensures |r| == |answer| + 1 ==> r[|answer|] == w[|w| - 1]
    ensures w[|w| - 1] == '}' ==> r == answer
  {
    if EndsWithPunctuation(w) then answer + [w[|w| - 1]] else answer
  }

  /** `explode(" ", s)`: the pieces between single spaces; never empty. */
  function Split(s: string): (ws: seq<string>)
    ensures |ws| >= 1
    ensures forall i :: 0 <= i < |ws| ==> ' ' !in ws[i]
  {
    if s == [] then [""]
    else
      var rest := Split(s[1..]);
      if s[0] == ' ' then [""] + rest
      else [[s[0]] + rest[0]] + rest[1..]
  }

  /** `implode(" ", ws)`. */
  function Join(ws: seq<string>): (r: string)
    ensures |r| >= |ws| - 1
    ensures |ws| == 1 ==> r == ws[0]
    ensures ws != [] ==> ws[0] <= r
  {
    if ws == [] then ""
    else if |ws| == 1 then ws[0]
    else ws[0] + " " + Join(ws[1..])
  }

  /** The number of placeholder words, which is the number of prompts. */
  function PlaceholderCount(ws: seq<string>): (n: nat)
  {
    if ws == [] then 0
    else PlaceholderCount(ws[..|ws| - 1]) + (if IsPlaceholder(ws[|ws| - 1]) then 1 else 0)
  }

  /** The `$completed_template_msg` array the loop builds: word by word,
      consuming one answer per placeholder. */
  function FillWords(ws: seq<string>, answers: seq<string>): (r: seq<string>)
    requires |answers| == PlaceholderCount(ws)
    ensures |r| == |ws|
  {
    if ws == [] then []
    else
      var w := ws[|ws| - 1];
      if IsPlaceholder(w) then
        FillWords(ws[..|ws| - 1], answers[..|answers| - 1]) + [FillWord(w, answers[|answers| - 1])]
      else
        FillWords(ws[..|ws| - 1], answers) + [w]
  }

  /** The fill loop itself. */
  method FillTemplate(template: string, answers: seq<string>) returns (completed: string)
    requires |answers| == PlaceholderCount(Split(template))
    ensures completed == Join(FillWords(Split(template), answers))
  {
    var words := Split(template);
    var filled: seq<string> := [];
    var used := 0;
    for i := 0 to |words|
      invariant used == PlaceholderCount(words[..i])
      invariant used <= |answers|
      invariant filled == FillWords(words[..i], answers[..used])
    {
      var word := words[i];
      var replaced := word;
      LoopStep(words, i, answers, used);
      if IsPlaceholder(word) {
        FillWordCases(word, answers[used]);
        replaced := answers[used];
        if EndsWithPunctuation(word) {
          replaced := replaced + [word[|word| - 1]];
        }
        used := used + 1;
      }
      filled := filled + [replaced];
    }
    assert words[..|words|] == words;
    assert answers[..used] == answers;
    completed := Join(filled);
  }

  /** The two cases of filling one placeholder word. */
  lemma FillWordCases(w: string, answer: string)
    requires IsPlaceholder(w)
    ensures EndsWithPunctuation(w) ==> FillWord(w, answer) == answer + [w[|w| - 1]]
    ensures !EndsWithPunctuation(w) ==> FillWord(w, answer) == answer
  {
  }

  /** One turn of the fill loop, stated on the prefix of answers used so far. */
  lemma LoopStep(words: seq<string>, i: nat, answers: seq<string>, used: nat)
    requires i < |words|
    requires |answers| == PlaceholderCount(words)
    requires used == PlaceholderCount(words[..i])
    ensures used <= |answers|
    ensures IsPlaceholder(words[i]) ==>
              && used < |answers|
              && used + 1 == PlaceholderCount(words[..i + 1])
              && FillWords(words[..i + 1], answers[..used + 1]) ==
                   FillWords(words[..i], answers[..used]) + [FillWord(words[i], answers[used])]
    ensures !IsPlaceholder(words[i]) ==>
              && used == PlaceholderCount(words[..i + 1])
              && FillWords(words[..i + 1], answers[..used]) == FillWords(words[..i], answers[..used]) + [words[i]]
  {
    CountStep(words, i);
    CountPrefix(words, i + 1);
    if IsPlaceholder(words[i]) {
      FillNext(words, i, answers, used);
    } else {
      FillStep(words, i, answers[..used]);
    }
  }

  /** The placeholder case of one turn: the next answer is the one used. */
  lemma FillNext(words: seq<string>, i: nat, answers: seq<string>, used: nat)
    requires i < |words| && IsPlaceholder(words[i])
    requires used == PlaceholderCount(words[..i])
    requires used + 1 == PlaceholderCount(words[..i + 1]) <= |answers|
    ensures FillWords(words[..i + 1], answers[..used + 1]) ==
              FillWords(words[..i], answers[..used]) + [FillWord(words[i], answers[used])]
  {
    var prefix := answers[..used + 1];
    FillStep(words, i, prefix);
    assert prefix[..used] == answers[..used];
    assert prefix[|prefix| - 1] == answers[used];
  }

  /** The placeholders of the prefix ending at word i: those before it,
      plus one when word i is a placeholder. */
  lemma CountStep(words: seq<string>, i: nat)
    requires i < |words|
    ensures PlaceholderCount(words[..i + 1]) == PlaceholderCount(words[..i]) + (if IsPlaceholder(words[i]) then 1 else 0)
  {
    assert words[..i + 1][..i] == words[..i];
  }

  /** One turn of the fill loop: the prefix ending at word i is the prefix
      before it plus word i, filled with the last answer when it is a
      placeholder. */
  lemma FillStep(words: seq<string>, i: nat, answers: seq<string>)
    requires i < |words|
    requires |answers| == PlaceholderCount(words[..i + 1])
    ensures IsPlaceholder(words[i]) ==>
              && |answers| >= 1
              && |answers| - 1 == PlaceholderCount(words[..i])
              && FillWords(words[..i + 1], answers) ==
                   FillWords(words[..i], answers[..|answers| - 1]) + [FillWord(words[i], answers[|answers| - 1])]
    ensures !IsPlaceholder(words[i]) ==>
              && |answers| == PlaceholderCount(words[..i])
              && FillWords(words[..i + 1], answers) == FillWords(words[..i], answers) + [words[i]]
  {
    assert words[..i + 1][..i] == words[..i];
  }

  // ---------------------------------------------------------------------
  // Lemmas
  // ---------------------------------------------------------------------

  /** The placeholders of a prefix are at most those of the whole. */
  lemma {:induction false} CountPrefix(ws: seq<string>, k: nat)
    requires k <= |ws|
    ensures PlaceholderCount(ws[..k]) <= PlaceholderCount(ws)
    decreases |ws|
  {
    if k < |ws| {
      assert ws[..|ws| - 1][..k] == ws[..k];
      CountPrefix(ws[..|ws| - 1], k);
    } else {
      assert ws[..k] == ws;
    }
  }

  /** There are at most as many prompts as words. */
  lemma {:induction false} CountBound(ws: seq<string>)
    ensures PlaceholderCount(ws) <= |ws|
  {
    if ws != [] {
      CountBound(ws[..|ws| - 1]);
    }
  }

  /** No prompt is asked exactly when no word is a placeholder. */
  lemma {:induction false} CountZero(ws: seq<string>)
    ensures PlaceholderCount(ws) == 0 <==> forall i :: 0 <= i < |ws| ==> !IsPlaceholder(ws[i])
  {
    if ws != [] {
      var init := ws[..|ws| - 1];
      CountZero(init);
      assert forall i :: 0 <= i < |init| ==> init[i] == ws[i];
    }
  }

  /** Word k of the result: a non-placeholder is copied, and a placeholder
      is filled with answer number c, where c counts the placeholders before
      it, so answers are consumed one per placeholder, left to right. */
  lemma {:induction false} FillWordsAt(ws: seq<string>, answers: seq<string>, k: nat)
    requires |answers| == PlaceholderCount(ws)
    requires k < |ws|
    ensures IsPlaceholder(ws[k]) ==> PlaceholderCount(ws[..k]) < |answers|
    ensures FillWords(ws, answers)[k] ==
              if IsPlaceholder(ws[k]) then FillWord(ws[k], answers[PlaceholderCount(ws[..k])]) else ws[k]
    decreases |ws|
  {
    var init := ws[..|ws| - 1];
    if k == |ws| - 1 {
      FillWordsLast(ws, answers);
    } else {
      var initAnswers := if IsPlaceholder(ws[|ws| - 1]) then answers[..|answers| - 1] else answers;
      FillWordsDropLast(ws, answers, k);
      FillWordsAt(init, initAnswers, k);
      assert init[k] == ws[k];
      assert init[..k] == ws[..k];
    }
  }

  /** The last word of the result. */
  lemma FillWordsLast(ws: seq<string>, answers: seq<string>)
    requires |answers| == PlaceholderCount(ws) && ws != []
    ensures var k := |ws| - 1;
            && (IsPlaceholder(ws[k]) ==> PlaceholderCount(ws[..k]) < |answers|)
            && FillWords(ws, answers)[k] ==
                 if IsPlaceholder(ws[k]) then FillWord(ws[k], answers[PlaceholderCount(ws[..k])]) else ws[k]
  {
    var k := |ws| - 1;
    assert ws[..k] == ws[..|ws| - 1];
  }

  /** Word k before the last one is filled as in the fill of all words but
      the last, with the answers that fill leaves for them. */
  lemma FillWordsDropLast(ws: seq<string>, answers: seq<string>, k: nat)
    requires |answers| == PlaceholderCount(ws)
    requires k < |ws| - 1
    ensures var initAnswers := if IsPlaceholder(ws[|ws| - 1]) then answers[..|answers| - 1] else answers;
            && initAnswers == answers[..|initAnswers|]
            && |initAnswers| == PlaceholderCount(ws[..|ws| - 1])
            && FillWords(ws, answers)[k] == FillWords(ws[..|ws| - 1], initAnswers)[k]
  {
  }

  /** Without placeholders the fill returns each word unchanged. */
  lemma {:induction false} FillWordsNoPlaceholder(ws: seq<string>)
    requires PlaceholderCount(ws) == 0
    ensures FillWords(ws, []) == ws
  {
    if ws != [] {
      var init := ws[..|ws| - 1];
      assert PlaceholderCount(init) == 0 && !IsPlaceholder(ws[|ws| - 1]);
      FillWordsNoPlaceholder(init);
      assert FillWords(ws, []) == init + [ws[|ws| - 1]];
      assert init + [ws[|ws| - 1]] == ws;
    }
  }

  /** Splitting on single spaces and joining with single spaces gives the
      string back. */
  lemma {:induction false} JoinSplit(s: string)
    ensures Join(Split(s)) == s
  {
    if s != [] {
      JoinSplit(s[1..]);
      var rest := Split(s[1..]);
      if s[0] != ' ' {
        if |rest| == 1 {
          assert Join(Split(s)) == [s[0]] + rest[0];
        } else {
          assert Join(Split(s)) == [s[0]] + rest[0] + " " + Join(rest[1..]);
          assert Join(rest) == rest[0] + " " + Join(rest[1..]);
        }
      }
      assert s == [s[0]] + s[1..];
    }
  }

  /** A word without spaces in front of a string extends its first piece. */
  lemma {:induction false} SplitPrefix(w: string, s: string)
    requires ' ' !in w
    ensures Split(w + s) == [w + Split(s)[0]] + Split(s)[1..]
  {
    if w != [] {
      SplitPrefix(w[1..], s);
      var t := w[1..] + s;
      assert (w + s)[0] == w[0] && (w + s)[1..] == t;
      assert Split(w + s) == [[w[0]] + Split(t)[0]] + Split(t)[1..];
      assert [w[0]] + (w[1..] + Split(s)[0]) == w + Split(s)[0];
    } else {
      assert w + s == s;
      assert w + Split(s)[0] == Split(s)[0];
      assert Split(s) == [Split(s)[0]] + Split(s)[1..];
    }
  }

  /** Joining words that hold no spaces and splitting again gives the words
      back. */
  lemma {:induction false} SplitJoin(ws: seq<string>)
    requires |ws| >= 1
    requires forall i :: 0 <= i < |ws| ==> ' ' !in ws[i]
    ensures Split(Join(ws)) == ws
  {
    if |ws| == 1 {
      SplitPrefix(ws[0], "");
      assert ws[0] + "" == ws[0];
    } else {
      SplitJoin(ws[1..]);
      var tail := " " + Join(ws[1..]);
      assert ws[0] + " " + Join(ws[1..]) == ws[0] + tail;
      SplitPrefix(ws[0], tail);
      assert tail[1..] == Join(ws[1..]);
      assert Split(tail) == [""] + ws[1..];
      assert ws[0] + "" == ws[0];
      assert ws == [ws[0]] + ws[1..];
    }
  }

  /** A template without placeholder words comes back identical. */
  lemma NoPlaceholderIdentity(template: string)
    requires PlaceholderCount(Split(template)) == 0
    ensures Join(FillWords(Split(template), [])) == template
  {
    FillWordsNoPlaceholder(Split(template));
    JoinSplit(template);
  }

  /** The result has one word per template word, and when no answer holds a
      space, splitting the completed message again gives exactly as many
      words as the template has. */
  lemma WordCountPreserved(template: string, answers: seq<string>)
    requires |answers| == PlaceholderCount(Split(template))
    ensures |FillWords(Split(template), answers)| == |Split(template)|
    ensures (forall a :: a in answers ==> ' ' !in a) ==>
              |Split(Join(FillWords(Split(template), answers)))| == |Split(template)|
  {
    var ws := Split(template);
    var filled := FillWords(ws, answers);
    if forall a :: a in answers ==> ' ' !in a {
      forall k | 0 <= k < |filled| ensures ' ' !in filled[k] {
        FillWordsAt(ws, answers, k);
        if IsPlaceholder(ws[k]) {
          var a := answers[PlaceholderCount(ws[..k])];
          assert ' ' !in a;
          assert ' ' !in ws[k];
        }
      }
      SplitJoin(filled);
    }
  }

  /** For a word without a newline the pattern reads plainly: it starts with
      `{`, has at least two characters and ends in `}` or punctuation. A word
      ending in `}` is replaced by the answer alone; one ending in
      punctuation gets that one character back. */
  lemma PlainPlaceholder(w: string, answer: string)
    requires '\n' !in w
    ensures IsPlaceholder(w) <==> |w| >= 2 && w[0] == '{' && w[|w| - 1] in Closers
    ensures IsPlaceholder(w) && w[|w| - 1] == '}' ==> FillWord(w, answer) == answer
    ensures IsPlaceholder(w) && w[|w| - 1] in Punctuation ==> FillWord(w, answer) == answer + [w[|w| - 1]]
  {
    if |w| >= 2 {
      assert forall c :: c in w[1..|w| - 1] ==> c in w;
    }
  }

  /** The whole PCRE reading of the placeholder pattern: with one final
      newline set aside, the word has no newline at all, starts with `{` and
      ends in a closer. */
  lemma PlaceholderReading(w: string)
    ensures IsPlaceholder(w) <==>
              var t := Chomp(w); |t| >= 2 && t[0] == '{' && t[|t| - 1] in Closers && '\n' !in t
  {
  }

  /** The greeting's five words, with either word in its two slots, joined. */
  lemma GreetingJoin(x: string, y: string)
    ensures Join(["Hello", x, "welcome", "to", y]) == "Hello " + x + " welcome to " + y
  {
    var ws := ["Hello", x, "welcome", "to", y];
    assert ws[1..][1..][1..][1..] == [y];
    assert Join(ws[1..][1..][1..]) == "to" + " " + y;
    assert Join(ws[1..][1..]) == "welcome" + " " + "to" + " " + y;
    assert Join(ws[1..]) == x + " " + "welcome" + " " + "to" + " " + y;
    assert "Hello" + " " == "Hello ";
    assert " " + "welcome" + " " + "to" + " " == " welcome to ";
  }

  /** The greeting template and its fill, each joined from five words. */
  lemma ExampleJoined()
    ensures Join(["Hello", "{name},", "welcome", "to", "{place}!"]) == "Hello {name}, welcome to {place}!"
    ensures Join(["Hello", "Ada,", "welcome", "to", "the team!"]) == "Hello Ada, welcome to the team!"
  {
    GreetingJoin("{name},", "{place}!");
    assert "Hello " + "{name}," == "Hello {name},";
    assert "Hello {name}," + " welcome to " == "Hello {name}, welcome to ";
    assert "Hello {name}, welcome to " + "{place}!" == "Hello {name}, welcome to {place}!";
    GreetingJoin("Ada,", "the team!");
    assert "Hello " + "Ada," == "Hello Ada,";
    assert "Hello Ada," + " welcome to " == "Hello Ada, welcome to ";
    assert "Hello Ada, welcome to " + "the team!" == "Hello Ada, welcome to the team!";
  }

  /** The greeting template splits into its five words. */
  lemma ExampleSplit()
    ensures Split("Hello {name}, welcome to {place}!") == ["Hello", "{name},", "welcome", "to", "{place}!"]
  {
    var words := ["Hello", "{name},", "welcome", "to", "{place}!"];
    ExampleJoined();
    assert forall i :: 0 <= i < |words| ==> ' ' !in words[i] by {
      assert ' ' !in words[0] && ' ' !in words[1] && ' ' !in words[2];
      assert ' ' !in words[3] && ' ' !in words[4];
    }
    SplitJoin(words);
  }

  /** Which words of the greeting are placeholders. */
  lemma ExampleClassified()
    ensures IsPlaceholder("{name},") && EndsWithPunctuation("{name},")
    ensures IsPlaceholder("{place}!") && EndsWithPunctuation("{place}!")
    ensures !IsPlaceholder("Hello") && !IsPlaceholder("welcome") && !IsPlaceholder("to")
  {
    assert "{name},"[6] in Closers && "{name},"[6] in Punctuation;
    assert "{name},"[1..6] == "name}";
    assert "{place}!"[7] in Closers && "{place}!"[7] in Punctuation;
    assert "{place}!"[1..7] == "place}";
    assert "Hello"[0] == 'H' && "welcome"[0] == 'w' && "to"[0] == 't';
  }

  /** The greeting's words: two placeholders, and their fill. */
  lemma ExampleFilled()
    ensures PlaceholderCount(["Hello", "{name},", "welcome", "to", "{place}!"]) == 2
    ensures FillWords(["Hello", "{name},", "welcome", "to", "{place}!"], ["Ada", "the team"])
            == ["Hello", "Ada,", "welcome", "to", "the team!"]
  {
    ExampleClassified();
    var words := ["Hello", "{name},", "welcome", "to", "{place}!"];
    var answers := ["Ada", "the team"];
    assert PlaceholderCount(words[..1]) == 0;
    assert PlaceholderCount(words[..2]) == 1 by { assert words[..2][..1] == words[..1]; }
    assert PlaceholderCount(words[..3]) == 1 by { assert words[..3][..2] == words[..2]; }
    assert PlaceholderCount(words[..4]) == 1 by { assert words[..4][..3] == words[..3]; }
    assert words[..4] == words[..|words| - 1];
    assert FillWord("{name},", "Ada") == "Ada,";
    assert FillWord("{place}!", "the team") == "the team!";
    assert FillWords(words[..1], []) == ["Hello"];
    assert FillWords(words[..2], ["Ada"]) == ["Hello", "Ada,"] by {
      assert words[..2][..1] == words[..1];
      assert ["Ada"][..0] == [];
    }
    assert FillWords(words[..3], ["Ada"]) == ["Hello", "Ada,", "welcome"] by {
      assert words[..3][..2] == words[..2];
    }
    assert FillWords(words[..4], ["Ada"]) == ["Hello", "Ada,", "welcome", "to"] by {
      assert words[..4][..3] == words[..3];
    }
    assert answers[..1] == ["Ada"];
  }

  /** The greeting example: punctuation after a placeholder is kept. */
  lemma GreetingExample()
    ensures PlaceholderCount(Split("Hello {name}, welcome to {place}!")) == 2
    ensures Join(FillWords(Split("Hello {name}, welcome to {place}!"), ["Ada", "the team"]))
            == "Hello Ada, welcome to the team!"
  {
    ExampleSplit();
    ExampleFilled();
    ExampleJoined();
  }

  /** A placeholder that ends the template with punctuation and a newline
      matches both patterns through the final newline, so the appended last
      character is the newline and the punctuation is dropped. */
  lemma TrailingNewlineDropsPunctuation()
    ensures IsPlaceholder("{name},\n")
    ensures FillWord("{name},\n", "Ada") == "Ada\n"
  {
  }
}
