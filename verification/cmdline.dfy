/**
 * Splitting the command line in process_exec (userprog/process.c): repeated
 * strtok_r calls with the delimiter " " fill the `values` array with the
 * words of the line, followed by a NULL.
 */
module CmdLine {
  import opened Wrappers
  import opened Mem

  const SPACE: Byte := 0x20
  /** char *values[128] */
  const ARGV_SLOTS: nat := 128

  /** A C string's bytes: no NUL before its end. */
  predicate NoNul(s: seq<Byte>)
  {
    forall j :: 0 <= j < |s| ==> s[j] != 0
  }

  /** A word: a non-empty run of bytes other than the delimiter. */
  predicate IsWord(w: seq<Byte>)
  {
    |w| > 0 && forall j :: 0 <= j < |w| ==> w[j] != SPACE
  }

  /** The length of the run of non-delimiter bytes that starts `s`. */
  function RunLength(s: seq<Byte>): (n: nat)
    ensures n <= |s|
  {
    if |s| == 0 || s[0] == SPACE then 0 else 1 + RunLength(s[1..])
  }

  /** The run holds no delimiter and stops at one or at the end. */
  lemma {:induction false} RunLengthStops(s: seq<Byte>)
    ensures forall j :: 0 <= j < RunLength(s) ==> s[j] != SPACE
    ensures RunLength(s) < |s| ==> s[RunLength(s)] == SPACE
  {
    if |s| > 0 && s[0] != SPACE {
      RunLengthStops(s[1..]);
    }
  }

  /** The words of `s`: its maximal runs of non-delimiter bytes, in order. */
  function Words(s: seq<Byte>): (ws: seq<seq<Byte>>)
    decreases |s|
  {
    if |s| == 0 then []
    else if s[0] == SPACE then Words(s[1..])
    else [s[..RunLength(s)]] + Words(s[RunLength(s)..])
  }

  /** Every word of a line is a word, and a word of a C string is a C string. */
  lemma {:induction false} WordsAreWords(s: seq<Byte>)
    ensures forall i :: 0 <= i < |Words(s)| ==> IsWord(Words(s)[i])
    ensures NoNul(s) ==> forall i :: 0 <= i < |Words(s)| ==> NoNul(Words(s)[i])
    decreases |s|
  {
    if |s| > 0 {
      if s[0] == SPACE {
        WordsAreWords(s[1..]);
      } else {
        RunLengthStops(s);
        WordsAreWords(s[RunLength(s)..]);
      }
    }
  }

  /** The words joined with one delimiter between each two. */
  function Unwords(ws: seq<seq<Byte>>): seq<Byte>
  {
    if |ws| == 0 then []
    else if |ws| == 1 then ws[0]
    else ws[0] + [SPACE] + Unwords(ws[1..])
  }

  /** Splitting a word followed by the rest of a line gives that word first. */
  lemma WordThenRest(w: seq<Byte>, rest: seq<Byte>)
    requires IsWord(w) && (|rest| == 0 || rest[0] == SPACE)
    ensures Words(w + rest) == [w] + Words(rest)
  {
    var s := w + rest;
    RunLengthOfWord(w, rest);
    assert s[..|w|] == w && s[|w|..] == rest;
  }

  lemma {:induction false} RunLengthOfWord(w: seq<Byte>, rest: seq<Byte>)
    requires forall j :: 0 <= j < |w| ==> w[j] != SPACE
    requires |rest| == 0 || rest[0] == SPACE
    ensures RunLength(w + rest) == |w|
  {
    if |w| > 0 {
      assert (w + rest)[1..] == w[1..] + rest;
      RunLengthOfWord(w[1..], rest);
    }
  }

  /** Joining words and splitting the result gives the words back. */
  lemma {:induction false} WordsUnwords(ws: seq<seq<Byte>>)
    requires forall i :: 0 <= i < |ws| ==> IsWord(ws[i])
    ensures Words(Unwords(ws)) == ws
  {
    if |ws| == 1 {
      WordThenRest(ws[0], []);
      assert ws[0] + [] == ws[0];
    } else if |ws| > 1 {
      var rest := Unwords(ws[1..]);
      WordsUnwords(ws[1..]);
      WordThenRest(ws[0], [SPACE] + rest);
      assert ws[0] + [SPACE] + rest == ws[0] + ([SPACE] + rest);
      assert ([SPACE] + rest)[1..] == rest;
    }
  }

  /** What one strtok_r call returns: the token and where the next call resumes. */
  datatype Token = Token(word: seq<Byte>, next: nat)

  /** The first position at or after `pos` that is not a delimiter. */
  function SkipDelims(s: seq<Byte>, pos: nat): (r: nat)
    requires pos <= |s|
    ensures pos <= r <= |s|
    ensures r < |s| ==> s[r] != SPACE
    decreases |s| - pos
  {
    if pos < |s| && s[pos] == SPACE then SkipDelims(s, pos + 1) else pos
  }

  /**
   * strtok_r from `pos`: skip delimiters; at the end of the string there is
   * no token; otherwise the token runs to the next delimiter, which is
   * overwritten with NUL, and the next call resumes just after it.
   */
  function StrTok(s: seq<Byte>, pos: nat): (r: Option<Token>)
    requires pos <= |s|
    ensures r.Some? ==> pos < r.value.next <= |s|
  {
    var start := SkipDelims(s, pos);
    if start == |s| then None
    else
      var end := start + RunLength(s[start..]);
      Some(Token(s[start..end], if end < |s| then end + 1 else end))
  }

  /** A delimiter at `pos` adds no word. */
  lemma WordsSkip(s: seq<Byte>, pos: nat)
    requires pos < |s| && s[pos] == SPACE
    ensures Words(s[pos..]) == Words(s[pos + 1..])
  {
    assert s[pos..][1..] == s[pos + 1..];
  }

  /** A word starting at `pos` is the first word after `pos`. */
  lemma WordsAt(s: seq<Byte>, pos: nat)
    requires pos < |s| && s[pos] != SPACE
    ensures var end := pos + RunLength(s[pos..]);
      end <= |s| && Words(s[pos..]) == [s[pos..end]] + Words(s[end..])
  {
    var n := RunLength(s[pos..]);
    assert s[pos..][..n] == s[pos..pos + n];
    assert s[pos..][n..] == s[pos + n..];
  }

  /** Delimiters from `pos` up to SkipDelims add no word. */
  lemma {:induction false} WordsAfterDelims(s: seq<Byte>, pos: nat)
    requires pos <= |s|
    ensures Words(s[pos..]) == Words(s[SkipDelims(s, pos)..])
    decreases |s| - pos
  {
    if pos < |s| && s[pos] == SPACE {
      WordsSkip(s, pos);
      WordsAfterDelims(s, pos + 1);
    }
  }

  /** The words after `pos` are strtok_r's token followed by the words after where it resumes. */
  lemma StrTokWords(s: seq<Byte>, pos: nat)
    requires pos <= |s|
    ensures StrTok(s, pos).None? ==> Words(s[pos..]) == []
    ensures StrTok(s, pos).Some? ==>
      Words(s[pos..]) == [StrTok(s, pos).value.word] + Words(s[StrTok(s, pos).value.next..])
  {
    WordsAfterDelims(s, pos);
    var start := SkipDelims(s, pos);
    if start < |s| {
      WordThenNext(s, start);
      var end := start + RunLength(s[start..]);
      var t := Token(s[start..end], if end < |s| then end + 1 else end);
      assert StrTok(s, pos) == Some(t);
      assert Words(s[pos..]) == [t.word] + Words(s[t.next..]);
    } else {
      assert s[start..] == [];
    }
  }

  /** A word at `start` followed by the words after the position strtok_r resumes at. */
  lemma WordThenNext(s: seq<Byte>, start: nat)
    requires start < |s| && s[start] != SPACE
    ensures var end := start + RunLength(s[start..]);
      Words(s[start..]) == [s[start..end]] + Words(s[if end < |s| then end + 1 else end..])
  {
    WordsAt(s, start);
    var end := start + RunLength(s[start..]);
    if end < |s| {
      RunLengthStop(s, start);
      WordsSkip(s, end);
    }
  }

  /** The run starting at `start` stops at a delimiter when it stops before the end. */
  lemma RunLengthStop(s: seq<Byte>, start: nat)
    requires start <= |s|
    ensures var end := start + RunLength(s[start..]); end < |s| ==> s[end] == SPACE
  {
    RunLengthStops(s[start..]);
  }

  /**
   * When the words after `pos` are the words of the line from `count` on,
   * the next strtok_r call returns word `count`, or none once all are taken.
   */
  lemma NextWord(s: seq<Byte>, pos: nat, ws: seq<seq<Byte>>, count: nat)
    requires pos <= |s| && count <= |ws| && Words(s[pos..]) == ws[count..]
    ensures StrTok(s, pos).None? ==> count == |ws|
    ensures StrTok(s, pos).Some? ==>
      count < |ws| && StrTok(s, pos).value.word == ws[count] &&
      Words(s[StrTok(s, pos).value.next..]) == ws[count + 1..]
  {
    StrTokWords(s, pos);
    if StrTok(s, pos).Some? {
      var t := StrTok(s, pos).value;
      ConsSuffix(ws, count, t.word, Words(s[t.next..]));
    }
  }

  lemma ConsSuffix(ts: seq<seq<Byte>>, i: nat, w: seq<Byte>, rest: seq<seq<Byte>>)
    requires i <= |ts| && ts[i..] == [w] + rest
    ensures i < |ts| && ts[i] == w && ts[i + 1..] == rest
  {
    assert ts[i..][0] == w && ts[i..][1..] == rest;
  }

  /** The word a strtok_r call stores into `values`: its token, or NULL. */
  function Stored(t: Option<Token>): Option<seq<Byte>>
  {
    if t.Some? then Some(t.value.word) else None
  }

  /**
   * The stores of the tokenising loop in process_exec as written, from
   * save_ptr `pos` on: each strtok_r result in turn, up to and including the
   * first NULL. Nothing stops the stores at the end of the 128-entry array.
   */
  function StoresAsWritten(line: seq<Byte>, pos: nat): (r: seq<Option<seq<Byte>>>)
    requires pos <= |line|
    ensures 0 < |r| && r[|r| - 1] == None
    decreases |line| - pos
  {
    var t := StrTok(line, pos);
    [Stored(t)] + (if t.Some? then StoresAsWritten(line, t.value.next) else [])
  }

  /** The loop as written stores the words after `pos` in order, then NULL. */
  lemma {:induction false} StoresAsWrittenWords(line: seq<Byte>, pos: nat)
    requires pos <= |line|
    ensures |StoresAsWritten(line, pos)| == |Words(line[pos..])| + 1
    ensures forall i :: 0 <= i < |Words(line[pos..])| ==> StoresAsWritten(line, pos)[i] == Some(Words(line[pos..])[i])
    decreases |line| - pos
  {
    StrTokWords(line, pos);
    var t := StrTok(line, pos);
    if t.Some? {
      var next := t.value.next;
      StoresAsWrittenWords(line, next);
      var r, ws, rest := StoresAsWritten(line, pos), Words(line[pos..]), StoresAsWritten(line, next);
      assert r == [Some(t.value.word)] + rest;
      assert ws == [t.value.word] + Words(line[next..]);
      forall i | 0 <= i < |ws|
        ensures r[i] == Some(ws[i])
      {
        if i > 0 {
          assert r[i] == rest[i - 1] && ws[i] == Words(line[next..])[i - 1];
        }
      }
    }
  }

  /** `n` one-letter words, each followed by a delimiter. */
  function RepeatWord(n: nat): (s: seq<Byte>)
  {
    if n == 0 then [] else [0x61, SPACE] + RepeatWord(n - 1)
  }

  lemma {:induction false} WordsOfRepeat(n: nat)
    ensures |Words(RepeatWord(n))| == n
  {
    if n > 0 {
      var s := RepeatWord(n);
      WordsOfRepeat(n - 1);
      assert s[2..] == RepeatWord(n - 1);
      assert RunLength(s) == 1 by {
        assert s[1..][0] == SPACE;
      }
      WordsSkip(s, 1);
    }
  }

  /**
   * A line of 128 or more words makes the loop as written store into
   * values[128] (and beyond), past the end of the 128-entry array.
   */
  lemma ValuesOverflow(n: nat)
    requires n >= ARGV_SLOTS
    ensures |StoresAsWritten(RepeatWord(n), 0)| > ARGV_SLOTS
  {
    WordsOfRepeat(n);
    StoresAsWrittenWords(RepeatWord(n), 0);
    assert RepeatWord(n)[0..] == RepeatWord(n);
  }

  /**
   * The tokenising loop of process_exec, bounded by the array: at most
   * ARGV_SLOTS - 1 words are stored, always followed by a NULL. Returns how
   * many were stored.
   */
  method Tokenize(line: seq<Byte>, values: array<Option<seq<Byte>>>) returns (count: nat)
    requires values.Length == ARGV_SLOTS
    modifies values
    ensures count == if |Words(line)| < ARGV_SLOTS then |Words(line)| else ARGV_SLOTS - 1
    ensures forall i :: 0 <= i < count ==> values[i] == Some(Words(line)[i])
    ensures values[count] == None
    ensures |Words(line)| < ARGV_SLOTS ==> values[..count + 1] == StoresAsWritten(line, 0)
  {
    ghost var ws := Words(line);
    var pos, token;
    count, pos, token := StoreWords(line, ws, values);
    NextWord(line, pos, ws, count);
    if token.Some? {
      values[count] := None;
    }
    if |ws| < ARGV_SLOTS {
      FitsAsWritten(line, values[..count + 1]);
    }
  }

  /** Values holding every word of the line and then NULL are exactly what the loop as written stores. */
  lemma FitsAsWritten(line: seq<Byte>, stored: seq<Option<seq<Byte>>>)
    requires |stored| == |Words(line)| + 1 && stored[|Words(line)|] == None
    requires forall i :: 0 <= i < |Words(line)| ==> stored[i] == Some(Words(line)[i])
    ensures stored == StoresAsWritten(line, 0)
  {
    StoresAsWrittenWords(line, 0);
    assert line[0..] == line;
  }

  /**
   * The loop itself: store each strtok_r result, resuming where the last
   * token ended, until a call returns none or the last slot is reached.
   */
  method StoreWords(line: seq<Byte>, ghost ws: seq<seq<Byte>>, values: array<Option<seq<Byte>>>)
    returns (count: nat, pos: nat, token: Option<Token>)
    requires values.Length == ARGV_SLOTS && ws == Words(line)
    modifies values
    ensures count < ARGV_SLOTS && pos <= |line| && token == StrTok(line, pos)
    ensures token.Some? ==> count == ARGV_SLOTS - 1
    ensures count <= |ws| && Words(line[pos..]) == ws[count..]
    ensures forall j :: 0 <= j < count ==> values[j] == Some(ws[j])
    ensures values[count] == Stored(token)
  {
    pos := 0;
    assert line[0..] == line && ws[0..] == ws;
    token := StrTok(line, 0);
    count := 0;
    values[count] := Stored(token);
    while token.Some? && count < ARGV_SLOTS - 1
      invariant count < ARGV_SLOTS && pos <= |line| && token == StrTok(line, pos)
      invariant count <= |ws| && Words(line[pos..]) == ws[count..]
      invariant forall j {:trigger values[j]} :: 0 <= j < count ==> values[j] == Some(ws[j])
      invariant values[count] == Stored(token)
    {
      NextWord(line, pos, ws, count);
      pos := token.value.next;
      token := StrTok(line, pos);
      count := count + 1;
      values[count] := Stored(token);
    }
  }
}
