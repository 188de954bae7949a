/** `tweeter`: the word pool taken from the fortune text, the message drawn
    from it, its "[n] ... ." framing and the 140-character cut, and the
    message counter of the sender loop. The fortune program, Twitter, the
    clock and the random choices are inputs. */
module Tweeter {
  import opened Results
  import Strings
  import Digits

  const MSG_MAX_LENGTH := 130
  const MSG_MAX_LENGTH_HARD := 140
  const MIN_WORD_LENGTH := 2
  const FORBIDDEN: seq<string> := [
    "--", ".", "!", "?", ",", "*", "'s", "n't", "...", ";", "[", "]", "(", ")",
    "{", "}", "'ll", ":", "\"", "'ve", "william", "shakespeare", "twain", "'"]

  // ---------------------------------------------------------------- words

  /** No entry of `forbidden` is found in `w`, tried in order with `find`. */
  function NoneFound(w: string, forbidden: seq<string>): bool
    decreases |forbidden|
  {
    forbidden == [] || (Strings.Find(w, forbidden[0]) < 0 && NoneFound(w, forbidden[1..]))
  }

  lemma {:induction false} NoneFoundIff(w: string, forbidden: seq<string>)
    ensures NoneFound(w, forbidden) <==> forall f :: f in forbidden ==> !Strings.Contains(w, f)
    decreases |forbidden|
  {
    if forbidden != [] {
      NoneFoundIff(w, forbidden[1..]);
      assert forall f :: f in forbidden <==> f == forbidden[0] || f in forbidden[1..];
    }
  }

  /** `_checkWord`: a word is kept when it has at least two characters and
      holds none of the forbidden pieces. */
  function CheckWord(w: string): (ok: bool)
    ensures ok <==> |w| >= MIN_WORD_LENGTH && forall f :: f in FORBIDDEN ==> !Strings.Contains(w, f)
  {
    NoneFoundIff(w, FORBIDDEN);
    |w| >= MIN_WORD_LENGTH && NoneFound(w, FORBIDDEN)
  }

  /** An apostrophe anywhere rejects a word; the forbidden pieces that hold
      one ("'s", "n't", "'ll", "'ve") change nothing beside it. */
  lemma {:induction false} ApostropheRejects(w: string, i: nat)
    requires i < |w| && w[i] == '\''
    ensures !CheckWord(w)
  {
    assert "'" in FORBIDDEN;
    assert Strings.OccursAt(w, "'", i);
  }

  /** A word as it enters the pool: stripped and lower-cased. */
  function Normalise(w: string): string {
    Strings.Lower(Strings.Strip(w))
  }

  /** The normalised words of one line, in order. */
  function LineCandidates(line: string): (r: seq<string>)
    ensures var ws := Strings.SplitWhitespace(line);
      |r| == |ws| && forall j :: 0 <= j < |ws| ==> r[j] == Normalise(ws[j])
  {
    var ws := Strings.SplitWhitespace(line);
    seq(|ws|, j requires 0 <= j < |ws| => Normalise(ws[j]))
  }

  /** The normalised words of all lines, in order. */
  function Candidates(lines: seq<string>): seq<string> {
    if lines == [] then []
    else Candidates(lines[..|lines| - 1]) + LineCandidates(lines[|lines| - 1])
  }

  /** The words kept from `ws`. */
  function Accepted(ws: seq<string>): set<string> {
    set w | w in ws && CheckWord(w)
  }

  lemma {:induction false} AcceptedSnoc(ws: seq<string>, w: string)
    ensures Accepted(ws + [w]) == Accepted(ws) + (if CheckWord(w) then {w} else {})
  {
    assert forall x :: x in ws + [w] <==> x in ws || x == w;
  }

  /** `_getFortuneOutput` after the fortune text has been read: every word
      of every line, stripped and lower-cased, goes into the set when it
      passes `_checkWord`. */
  method FortuneWords(lines: seq<string>) returns (words: set<string>)
    ensures words == Accepted(Candidates(lines))
  {
    words := {};
    var i := 0;
    while i < |lines|
      invariant i <= |lines|
      invariant words == Accepted(Candidates(lines[..i]))
    {
      var line := lines[i];
      var ws := Strings.SplitWhitespace(line);
      ghost var done := Candidates(lines[..i]);
      var j := 0;
      while j < |ws|
        invariant j <= |ws|
        invariant words == Accepted(done + LineCandidates(line)[..j])
      {
        var w := Strings.Lower(Strings.Strip(ws[j]));
        assert LineCandidates(line)[..j + 1] == LineCandidates(line)[..j] + [w];
        assert done + LineCandidates(line)[..j + 1] == (done + LineCandidates(line)[..j]) + [w];
        AcceptedSnoc(done + LineCandidates(line)[..j], w);
        if CheckWord(w) {
          words := words + {w};
        }
        j := j + 1;
      }
      assert LineCandidates(line)[..j] == LineCandidates(line);
      assert lines[..i + 1][..i] == lines[..i];
      i := i + 1;
    }
    assert lines[..i] == lines;
  }

  /** A word without white space is its own strip. */
  lemma {:induction false} StripWord(w: string)
    requires Strings.NoWhitespace(w)
    ensures Strings.Strip(w) == w
  {
    if w != [] {
      Strings.StripTrailing(w, "");
      assert w + "" == w;
    }
  }

  /** Every candidate is a non-empty lower-case word without white space. */
  lemma {:induction false} CandidatesClean(lines: seq<string>)
    ensures forall w :: w in Candidates(lines) ==>
      w != [] && Strings.IsLower(w) && Strings.NoWhitespace(w)
    decreases |lines|
  {
    if lines != [] {
      CandidatesClean(lines[..|lines| - 1]);
      var line := lines[|lines| - 1];
      var ws := Strings.SplitWhitespace(line);
      forall j | 0 <= j < |ws|
        ensures var w := Normalise(ws[j]); w != [] && Strings.IsLower(w) && Strings.NoWhitespace(w)
      {
        StripWord(ws[j]);
      }
    }
  }

  /** Every pool word is stripped, lower-case, and passes `_checkWord`. */
  lemma {:induction false} PoolWordsClean(lines: seq<string>, w: string)
    requires w in Accepted(Candidates(lines))
    ensures CheckWord(w) && Strings.IsLower(w) && Strings.NoWhitespace(w)
    ensures Strings.Strip(w) == w && Strings.Lower(w) == w
  {
    CandidatesClean(lines);
    StripWord(w);
  }

  // -------------------------------------------------------------- message

  /** The drawn words, each followed by a space, as `_getMsg` builds them. */
  function Spaced(ws: seq<string>): string {
    if ws == [] then "" else Spaced(ws[..|ws| - 1]) + ws[|ws| - 1] + " "
  }

  /** `_getMsg` with the pool as a list and the random draws as input:
      `choices[k]` is the index `randint` returns at the k-th draw, when the
      list has `|pool| - k` words left. Words are popped from the list and
      appended with a space until the text reaches 130 characters or the
      list is empty; the text is returned stripped, and `used` lists the
      popped words in the order they were drawn. */
  method GetMsg(pool: seq<string>, choices: seq<nat>) returns (msg: string, used: seq<string>)
    requires |choices| >= |pool|
    requires forall k :: 0 <= k < |pool| ==> choices[k] < |pool| - k
    ensures multiset(used) <= multiset(pool)
    ensures msg == Strings.Strip(Spaced(used))
    ensures |used| == |pool| || |Spaced(used)| >= MSG_MAX_LENGTH
    ensures |used| > 0 ==> |Spaced(used[..|used| - 1])| < MSG_MAX_LENGTH
  {
    var msgWords := pool;
    var r := "";
    used := [];
    while |r| < MSG_MAX_LENGTH && |msgWords| > 0
      invariant |used| + |msgWords| == |pool|
      invariant multiset(used) + multiset(msgWords) == multiset(pool)
      invariant r == Spaced(used)
      invariant |used| > 0 ==> |Spaced(used[..|used| - 1])| < MSG_MAX_LENGTH
      decreases |msgWords|
    {
      var word;
      SpacedSnoc(used, msgWords[choices[|used|]]);
      word, msgWords, used := Draw(msgWords, used, choices[|used|]);
      r := r + word + " ";
    }
    msg := Strings.Strip(r);
  }

  /** One draw: the chosen word is popped from the list and added to the
      words used. */
  method Draw(msgWords: seq<string>, used: seq<string>, chosen: nat) returns (word: string, msgWords': seq<string>, used': seq<string>)
    requires chosen < |msgWords|
    ensures word == msgWords[chosen] && used' == used + [word] && |msgWords'| == |msgWords| - 1
    ensures multiset(used') + multiset(msgWords') == multiset(used) + multiset(msgWords)
  {
    word := msgWords[chosen];
    PopCounts(msgWords, chosen);
    msgWords' := msgWords[..chosen] + msgWords[chosen + 1..];
    used' := used + [word];
  }

  /** `pop(i)` takes one occurrence of the i-th word out of the list. */
  lemma {:induction false} PopCounts(ws: seq<string>, i: nat)
    requires i < |ws|
    ensures multiset(ws[..i] + ws[i + 1..]) + multiset{ws[i]} == multiset(ws)
  {
    assert ws == ws[..i] + [ws[i]] + ws[i + 1..];
  }

  lemma {:induction false} SpacedSnoc(ws: seq<string>, w: string)
    ensures Spaced(ws + [w]) == Spaced(ws) + w + " "
    ensures (ws + [w])[..|ws|] == ws
  {
    assert (ws + [w])[..|ws|] == ws;
  }

  /** The drawn words of a pool of distinct words are distinct. */
  lemma {:induction false} UsedDistinct(pool: seq<string>, used: seq<string>, i: nat, j: nat)
    requires multiset(used) <= multiset(pool)
    requires forall a, b :: 0 <= a < b < |pool| ==> pool[a] != pool[b]
    requires i < j < |used|
    ensures used[i] != used[j]
  {
    TwiceCounted(used, i, j);
    DistinctCount(pool, used[i]);
  }

  lemma {:induction false} TwiceCounted(s: seq<string>, i: nat, j: nat)
    requires i < j < |s|
    ensures s[i] == s[j] ==> multiset(s)[s[i]] >= 2
  {
    assert s == s[..i] + [s[i]] + s[i + 1..j] + [s[j]] + s[j + 1..];
  }

  lemma {:induction false} DistinctCount(s: seq<string>, w: string)
    requires forall a, b :: 0 <= a < b < |s| ==> s[a] != s[b]
    ensures multiset(s)[w] <= 1
    decreases |s|
  {
    if s != [] {
      var t := s[..|s| - 1];
      assert s == t + [s[|s| - 1]];
      DistinctCount(t, w);
      if w == s[|s| - 1] {
        assert w !in t by {
          forall a | 0 <= a < |t| ensures t[a] != w {
            assert t[a] == s[a];
          }
        }
      }
    }
  }

  /** The message of `_postsSender`: the counter in brackets, the drawn
      text and a full stop. */
  function Message(counter: int, post: string): string {
    "[" + Digits.IntToString(counter) + "] " + post + "."
  }

  /** The counter and the text can be read back from a message: the
      counter is the number between the opening bracket and the first
      closing one, the text what lies between that bracket's space and the
      final full stop. */
  lemma {:induction false} MessageReadBack(counter: int, post: string)
    ensures var m := Message(counter, post); var k := Strings.Find(m, "]");
      m[0] == '[' && m[|m| - 1] == '.' &&
      1 <= k && k + 2 <= |m| - 1 && Digits.ParseInt(m[1..k]) == Some(counter) &&
      m[k + 1] == ' ' && m[k + 2..|m| - 1] == post
  {
    var d := Digits.IntToString(counter);
    var m := Message(counter, post);
    var k := |d| + 1;
    assert m[1..k] == d;
    assert m[k + 2..|m| - 1] == post;
    CounterHasNoBracket(counter);
    forall j | 0 <= j < k
      ensures m[j] != ']'
    {
      if j > 0 {
        assert m[j] == d[j - 1];
      }
    }
    FirstOccurrence(m, ']', k);
    Digits.ParseIntRoundTrip(counter);
  }

  lemma {:induction false} CounterHasNoBracket(counter: int)
    ensures ']' !in Digits.IntToString(counter)
  {
    var d := Digits.IntToString(counter);
    if counter < 0 {
      assert d[1..] == Digits.NatToString(-counter);
      assert forall j :: 1 <= j < |d| ==> d[j] == d[1..][j - 1];
    }
  }

  /** `find` of a one-character needle gives its first position. */
  lemma {:induction false} FirstOccurrence(m: string, c: char, k: nat)
    requires k < |m| && m[k] == c
    requires forall j :: 0 <= j < k ==> m[j] != c
    ensures Strings.Find(m, [c]) == k
  {
    assert m[k..k + 1] == [c];
    assert Strings.OccursAt(m, [c], k);
    forall j | 0 <= j < k
      ensures !Strings.OccursAt(m, [c], j)
    {
      assert m[j..j + 1] == [m[j]];
    }
  }

  /** A message of 140 characters or more is cut at its last space and
      given a full stop (Python's `msg[:-1]` when there is no space);
      shorter messages go out as they are. */
  function Shorten(msg: string): (r: string)
  {
    if |msg| >= MSG_MAX_LENGTH_HARD then
      var k := Strings.RFind(msg, ' ');
      (if k >= 0 then msg[..k] else msg[..|msg| - 1]) + "."
    else msg
  }

  /** A short message is left alone; a long one loses everything from its
      last space on, gains a full stop, and is never longer than before. */
  lemma {:induction false} ShortenSpec(msg: string)
    ensures |msg| < MSG_MAX_LENGTH_HARD ==> Shorten(msg) == msg
    ensures |msg| >= MSG_MAX_LENGTH_HARD ==>
      var r := Shorten(msg);
      r[|r| - 1] == '.' && |r| <= |msg| && r[..|r| - 1] == msg[..|r| - 1] &&
      (' ' in msg ==> ' ' !in msg[|r|..])
  {
    if |msg| >= MSG_MAX_LENGTH_HARD {
      var k := Strings.RFind(msg, ' ');
      var r := Shorten(msg);
      if k >= 0 {
        assert r[..|r| - 1] == msg[..k];
        forall j | 0 <= j < |msg[|r|..]|
          ensures msg[|r|..][j] != ' '
        {
          assert msg[|r|..][j] == msg[k + 1 + j];
        }
      }
    }
  }

  /** What is sent ends with a full stop. */
  lemma {:induction false} SentEndsWithStop(counter: int, post: string)
    ensures var r := Shorten(Message(counter, post)); r != [] && r[|r| - 1] == '.'
  {
  }

  /** Drawn words joined with spaces start with the first word's first
      character and end with a space. */
  lemma {:induction false} SpacedEnds(ws: seq<string>)
    requires ws != [] && ws[0] != []
    ensures var t := Spaced(ws); t != [] && t[0] == ws[0][0] && t[|t| - 1] == ' '
    decreases |ws|
  {
    if |ws| > 1 {
      SpacedEnds(ws[..|ws| - 1]);
    }
  }

  /** The drawn text loses only its final space to `strip`. */
  lemma {:induction false} StrippedPost(used: seq<string>)
    requires used != []
    requires forall j :: 0 <= j < |used| ==> used[j] != [] && Strings.NoWhitespace(used[j])
    ensures var p, w := used[..|used| - 1], used[|used| - 1];
      Strings.Strip(Spaced(used)) == Spaced(p) + w
  {
    var p, w := used[..|used| - 1], used[|used| - 1];
    var x := Spaced(p) + w;
    if p != [] {
      SpacedEnds(p);
      assert x[0] == p[0][0];
    } else {
      assert x == w;
    }
    assert x[|x| - 1] == w[|w| - 1];
    Strings.StripTrailing(x, " ");
  }

  /** With the draws of `_getMsg` (words without white space, the last one
      added while the text was under 130 characters) and a counter of at
      most seven digits, the message that is sent has fewer than 140
      characters: a long message is cut right before its last word. */
  lemma {:induction false} SentMessageFits(counter: int, used: seq<string>)
    requires used != []
    requires forall j :: 0 <= j < |used| ==> used[j] != [] && Strings.NoWhitespace(used[j])
    requires |Spaced(used[..|used| - 1])| < MSG_MAX_LENGTH
    requires |Digits.IntToString(counter)| <= 7
    ensures |Shorten(Message(counter, Strings.Strip(Spaced(used))))| < MSG_MAX_LENGTH_HARD
  {
    var p, w := used[..|used| - 1], used[|used| - 1];
    var d := Digits.IntToString(counter);
    var prefix := "[" + d + "] " + Spaced(p);
    assert prefix[|prefix| - 1] == ' ' by {
      if p != [] {
        SpacedEnds(p);
      }
    }
    var m := prefix + w + ".";
    assert Message(counter, Strings.Strip(Spaced(used))) == m by {
      StrippedPost(used);
      Strings.AppendAssoc("[" + d + "] ", Spaced(p), w);
    }
    assert |Shorten(m)| < MSG_MAX_LENGTH_HARD by {
      assert |prefix| < MSG_MAX_LENGTH_HARD;
      CutBeforeLastWord(prefix, w);
    }
  }

  /** A long message whose last word follows a space is cut right before
      that word. */
  lemma {:induction false} CutBeforeLastWord(prefix: string, w: string)
    requires prefix != [] && prefix[|prefix| - 1] == ' '
    requires Strings.NoWhitespace(w)
    ensures |Shorten(prefix + w + ".")| <= |prefix| ||
            |prefix + w + "."| < MSG_MAX_LENGTH_HARD
  {
    var m := prefix + w + ".";
    if |m| >= MSG_MAX_LENGTH_HARD {
      assert m[|prefix| - 1] == ' ';
      forall j | |prefix| <= j < |m|
        ensures m[j] != ' '
      {
        if j < |m| - 1 {
          assert m[j] == w[j - |prefix|];
        }
      }
    }
  }

  // --------------------------------------------------------------- sender

  /** `_postsSender` over the texts `_getMsg` returns, one per round: the
      counter starts at `startIndex`, goes up by one before each message,
      and each message is framed and cut as above. The loop itself only
      ends on an interrupt or a signal; here it ends with the texts. */
  method PostsSender(startIndex: int, posts: seq<string>) returns (sent: seq<string>)
    ensures |sent| == |posts|
    ensures forall k :: 0 <= k < |posts| ==> sent[k] == Shorten(Message(startIndex + k + 1, posts[k]))
  {
    var counter := startIndex;
    sent := [];
    var i := 0;
    while i < |posts|
      invariant i <= |posts|
      invariant counter == startIndex + i
      invariant |sent| == i
      invariant forall k :: 0 <= k < i ==> sent[k] == Shorten(Message(startIndex + k + 1, posts[k]))
    {
      counter := counter + 1;
      var msg := Compose(counter, posts[i]);
      sent := sent + [msg];
      i := i + 1;
    }
  }

  /** One round of `_postsSender`: the message for `post` at `counter`,
      cut after its last space when it is too long. */
  method Compose(counter: int, post: string) returns (msg: string)
    ensures msg == Shorten(Message(counter, post))
  {
    msg := "[" + Digits.IntToString(counter) + "] " + post + ".";
    if |msg| >= MSG_MAX_LENGTH_HARD {
      var k := Strings.RFind(msg, ' ');
      // `msg[:k]`, where k = -1 stands for the last character
      var cut := if k >= 0 then k else |msg| - 1;
      msg := msg[..cut] + ".";
    }
  }
}
