/** Splitting a file into tokens and whitespace. Both go to streams of escaped,
    zero-terminated records, from which the file is put together again. */
module Tokenizer {
  import opened Interning

  type Bytes = seq<Byte>

  // ----- records in a stream

  /** Bytes 0 and 1 are preceded by a 1. */
  function Escape(s: Bytes): Bytes {
    if s == [] then [] else Escape(s[..|s| - 1]) + EscapeByte(s[|s| - 1])
  }

  function EscapeByte(c: Byte): Bytes {
    if c == 0 || c == 1 then [1, c] else [c]
  }

  function Records(rs: seq<Bytes>): Bytes {
    if rs == [] then [] else Records(rs[..|rs| - 1]) + Escape(rs[|rs| - 1]) + [0]
  }

  lemma EscapeAppend(s: Bytes, c: Byte)
    ensures Escape(s + [c]) == Escape(s) + EscapeByte(c)
  {
    assert (s + [c])[..|s|] == s;
  }

  lemma RecordsAppend(rs: seq<Bytes>, s: Bytes)
    ensures Records(rs + [s]) == Records(rs) + Escape(s) + [0]
  {
    assert (rs + [s])[..|rs|] == rs;
  }

  lemma Grown(x: Bytes, y: Bytes, c: Byte)
    ensures x + y + [1] + [c] == x + (y + [1, c]) && x + y + [c] == x + (y + [c])
    ensures y + [1] + [c] == y + [1, c]
  {}

  /** Record `s` stands in the stream at `i`. */
  ghost predicate RecordAt(stream: Bytes, i: int, s: Bytes) {
    && 0 <= i && i + |Escape(s)| < |stream|
    && stream[i..i + |Escape(s)|] == Escape(s) && stream[i + |Escape(s)|] == 0
  }

  lemma EscapeStep(s: Bytes, k: int)
    requires 0 <= k < |s|
    ensures Escape(s[..k + 1]) == Escape(s[..k]) + EscapeByte(s[k])
  {
    assert s[..k + 1] == s[..k] + [s[k]];
    EscapeAppend(s[..k], s[k]);
  }

  lemma {:induction false} EscapeGrows(s: Bytes, k: int, n: int)
    requires 0 <= k <= n <= |s|
    ensures Escape(s[..k]) <= Escape(s[..n])
    decreases n
  {
    hide Escape, EscapeByte;
    if k < n {
      EscapeGrows(s, k, n - 1);
      EscapeStep(s, n - 1);
    }
  }

  /** Where byte `k` of a record stands in its escaped form. */
  lemma EscapePrefix(s: Bytes, k: int)
    requires 0 <= k < |s|
    ensures |Escape(s[..k])| + |EscapeByte(s[k])| <= |Escape(s)|
    ensures Escape(s)[|Escape(s[..k])|..|Escape(s[..k])| + |EscapeByte(s[k])|] == EscapeByte(s[k])
    ensures Escape(s[..k + 1]) == Escape(s[..k]) + EscapeByte(s[k])
  {
    hide Escape, EscapeByte;
    EscapeStep(s, k);
    EscapeGrows(s, k + 1, |s|);
    assert s[..|s|] == s;
    PartOf(Escape(s[..k]), EscapeByte(s[k]), Escape(s));
  }

  lemma PartOf(x: Bytes, y: Bytes, z: Bytes)
    requires x + y <= z
    ensures |x| + |y| <= |z| && z[|x|..|x| + |y|] == y
  {
    assert z[..|x + y|] == x + y;
    assert z[|x|..|x| + |y|] == z[..|x + y|][|x|..];
  }

  /** What the reader sees at byte `k` of a record. */
  lemma ByteAt(stream: Bytes, i: int, s: Bytes, k: int)
    requires RecordAt(stream, i, s) && 0 <= k < |s|
    ensures var p := i + |Escape(s[..k])|;
            && p + |EscapeByte(s[k])| < |stream|
            && (if s[k] == 0 || s[k] == 1 then stream[p] == 1 && stream[p + 1] == s[k] else stream[p] == s[k])
            && i + |Escape(s[..k + 1])| == p + |EscapeByte(s[k])|
  {
    EscapePrefix(s, k);
    var p, n, e := |Escape(s[..k])|, |EscapeByte(s[k])|, Escape(s);
    assert |Escape(s[..k + 1])| == p + n;
    hide Escape;
    assert stream[i..i + |e|][p] == stream[i + p] == e[p] == e[p..p + n][0];
    if s[k] == 0 || s[k] == 1 {
      assert stream[i..i + |e|][p + 1] == stream[i + p + 1] == e[p + 1] == e[p..p + n][1];
    }
  }

  /** Reads one record, undoing the escapes. The stream never ends within an
      escape. */
  method ReadRecord(stream: Bytes, start: int, ghost s: Bytes) returns (r: Bytes, end: int)
    requires RecordAt(stream, start, s)
    ensures r == s && end == start + |Escape(s)| + 1
  {
    r, end := [], start;
    hide Escape;
    assert s[..0] == [] && |Escape([])| == 0 by { EscapeNothing(); }
    assert s[..|s|] == s;
    if s != [] { ByteAt(stream, start, s, 0); }
    while end < |stream|
      invariant end < |stream| && |r| <= |s| && r == s[..|r|] && end == start + |Escape(s[..|r|])|
      decreases |s| - |r|
    {
      if |r| < |s| {
        ByteAt(stream, start, s, |r|);
      } else {
        assert s[..|r|] == s;
      }
      var c := stream[end];
      end := end + 1;
      if c == 0 {
        return;
      }
      if c == 1 {
        c := stream[end];
        end := end + 1;
      }
      r := r + [c];
      if |r| < |s| { ByteAt(stream, start, s, |r|); }
    }
  }

  lemma EscapeNothing()
    ensures Escape([]) == []
  {}

  lemma {:induction false} RecordsAt(rs: seq<Bytes>, k: int)
    requires 0 <= k < |rs|
    ensures RecordAt(Records(rs), |Records(rs[..k])|, rs[k])
    ensures |Records(rs[..k + 1])| == |Records(rs[..k])| + |Escape(rs[k])| + 1
    decreases |rs|
  {
    hide Escape;
    var t := rs[..|rs| - 1];
    assert rs[..k + 1] == rs[..k] + [rs[k]];
    RecordsAppend(rs[..k], rs[k]);
    if k < |rs| - 1 {
      RecordsAt(t, k);
      assert t[..k] == rs[..k];
      hide Records;
      Longer(Records(t), Escape(rs[|rs| - 1]) + [0], |Records(rs[..k])|, rs[k]);
      assert Records(rs) == Records(t) + (Escape(rs[|rs| - 1]) + [0]) by {
        RecordsAppend(t, rs[|rs| - 1]);
        assert rs == t + [rs[|rs| - 1]];
      }
    } else {
      assert rs[..k] == t && rs == t + [rs[k]];
      hide Records;
      AtEnd(Records(t), rs[k]);
    }
  }

  lemma Longer(stream: Bytes, more: Bytes, i: int, s: Bytes)
    requires RecordAt(stream, i, s)
    ensures RecordAt(stream + more, i, s)
  {
    hide Escape;
    assert (stream + more)[i..i + |Escape(s)|] == stream[i..i + |Escape(s)|];
  }

  lemma AtEnd(stream: Bytes, s: Bytes)
    ensures RecordAt(stream + Escape(s) + [0], |stream|, s)
  {
    hide Escape;
  }

  // ----- tokens

  datatype Category = Whitespace | Delimiter | Other

  /** Which bytes are whitespace, which are delimiters, and how words are
      compared. */
  datatype Classes = Classes(whitespace: set<Byte>, delimiters: set<Byte>, fold: map<Byte, Byte>) {
    function Classify(c: Byte): Category {
      if c in delimiters then Delimiter else if c in whitespace then Whitespace else Other
    }

    function Fold(c: Byte): Byte {
      if c in fold then fold[c] else c
    }

    function FoldAll(s: Bytes): (r: Bytes)
      ensures |r| == |s|
    {
      if s == [] then [] else FoldAll(s[..|s| - 1]) + [Fold(s[|s| - 1])]
    }

    /** All bytes of `s` are of one category. */
    predicate All(s: Bytes, category: Category) {
      forall k :: 0 <= k < |s| ==> Classify(s[k]) == category
    }

    predicate IsWord(t: Bytes) {
      t != [] && All(t, Other)
    }

    predicate IsDelimiter(t: Bytes) {
      |t| == 1 && All(t, Delimiter)
    }

    /** Tokens are words or single delimiters, each after its whitespace, and
        whitespace separates words. */
    ghost predicate Tokenized(ws: seq<Bytes>, ts: seq<Bytes>) {
      && (forall k :: 0 <= k < |ws| ==> All(ws[k], Whitespace))
      && (forall k :: 0 <= k < |ts| ==> IsWord(ts[k]) || IsDelimiter(ts[k]))
      && (forall k :: 0 < k < |ts| && k < |ws| ==> Apart(ws[k], ts[k - 1], ts[k]))
    }

    predicate Apart(w: Bytes, t: Bytes, u: Bytes) {
      IsWord(t) && IsWord(u) ==> w != []
    }

    ghost function FoldTokens(ts: seq<Bytes>): (r: seq<Bytes>)
      ensures |r| == |ts|
    {
      if ts == [] then [] else FoldTokens(ts[..|ts| - 1]) + [FoldAll(ts[|ts| - 1])]
    }
  }

  /** Whitespace and tokens in turn. */
  function Interleaved(ws: seq<Bytes>, ts: seq<Bytes>): Bytes
    requires |ws| == |ts|
  {
    if ws == [] then [] else Interleaved(ws[..|ws| - 1], ts[..|ts| - 1]) + ws[|ws| - 1] + ts[|ts| - 1]
  }

  lemma InterleavedAppend(ws: seq<Bytes>, ts: seq<Bytes>, w: Bytes, t: Bytes)
    requires |ws| == |ts|
    ensures Interleaved(ws + [w], ts + [t]) == Interleaved(ws, ts) + w + t
  {
    assert (ws + [w])[..|ws|] == ws && (ts + [t])[..|ts|] == ts;
  }

  lemma FoldAppend(classes: Classes, s: Bytes, c: Byte)
    ensures classes.FoldAll(s + [c]) == classes.FoldAll(s) + [classes.Fold(c)]
  {
    assert (s + [c])[..|s|] == s;
  }

  lemma FoldTokensAppend(classes: Classes, ts: seq<Bytes>, t: Bytes)
    ensures classes.FoldTokens(ts + [t]) == classes.FoldTokens(ts) + [classes.FoldAll(t)]
  {
    assert (ts + [t])[..|ts|] == ts;
  }

  datatype MatchState = AtFileStart | Word | InWhitespace

  /** What a file has been split into: finished whitespace records and tokens,
      the whitespace and the token being read. */
  datatype Split = Split(ws: seq<Bytes>, ts: seq<Bytes>, w: Bytes, t: Bytes)

  ghost predicate SplitOk(classes: Classes, state: MatchState, p: Split, input: Bytes) {
    && classes.Tokenized(p.ws, p.ts)
    && match state
       case AtFileStart => p == Split([], [], [], []) && input == []
       case InWhitespace =>
         && |p.ws| == |p.ts| && p.t == [] && classes.All(p.w, Whitespace)
         && input == Interleaved(p.ws, p.ts) + p.w
         && (p.w == [] && p.ts != [] ==> classes.IsDelimiter(p.ts[|p.ts| - 1]))
       case Word =>
         && |p.ws| == |p.ts| + 1 && p.w == [] && classes.IsWord(p.t)
         && input == Interleaved(p.ws[..|p.ts|], p.ts) + p.ws[|p.ts|] + p.t
         && (p.ws[|p.ts|] == [] && p.ts != [] ==> classes.IsDelimiter(p.ts[|p.ts| - 1]))
  }

  function WhiteByte(p: Split, c: Byte): Split { p.(w := p.w + [c]) }

  function WhiteEnd(p: Split): Split { p.(ws := p.ws + [p.w], w := []) }

  function TokenByte(p: Split, c: Byte): Split { p.(t := p.t + [c]) }

  function TokenEnd(p: Split): Split { p.(ts := p.ts + [p.t], t := []) }

  // ----- one byte in each state

  lemma FirstToken(classes: Classes, p: Split, c: Byte)
    requires SplitOk(classes, AtFileStart, p, [])
    ensures classes.Classify(c) == Whitespace ==> SplitOk(classes, InWhitespace, WhiteByte(p, c), [] + [c])
    ensures classes.Classify(c) == Other ==> SplitOk(classes, Word, TokenByte(WhiteEnd(p), c), [] + [c])
    ensures classes.Classify(c) == Delimiter ==>
              SplitOk(classes, InWhitespace, TokenEnd(TokenByte(WhiteEnd(p), c)), [] + [c])
  {
    InterleavedAppend([], [], [], [c]);
    assert [] + [c] == [c] == [] + [] + [c];
    assert WhiteEnd(p).ws[..0] == [];
  }

  lemma WordByte(classes: Classes, p: Split, input: Bytes, c: Byte)
    requires SplitOk(classes, Word, p, input) && classes.Classify(c) == Other
    ensures SplitOk(classes, Word, TokenByte(p, c), input + [c])
  {
    hide Interleaved;
    var before := Interleaved(p.ws[..|p.ts|], p.ts) + p.ws[|p.ts|];
    assert before + p.t + [c] == before + (p.t + [c]);
  }

  lemma NotBoth(classes: Classes, t: Bytes)
    ensures !(classes.IsWord(t) && classes.IsDelimiter(t))
  {
    if t != [] {
      assert classes.All(t, Other) ==> classes.Classify(t[0]) == Other;
    }
  }

  /** A finished word joins the tokens. */
  lemma EndWord(classes: Classes, p: Split, input: Bytes)
    requires SplitOk(classes, Word, p, input)
    ensures var q := TokenEnd(p);
            && classes.Tokenized(q.ws, q.ts) && |q.ws| == |q.ts| && input == Interleaved(q.ws, q.ts)
            && classes.IsWord(q.ts[|q.ts| - 1]) && q.w == q.t == []
  {
    hide Classes.All;
    var n := |p.ts|;
    InterleavedAppend(p.ws[..n], p.ts, p.ws[n], p.t);
    hide Interleaved;
    assert p.ws == p.ws[..n] + [p.ws[n]];
    var q := TokenEnd(p);
    forall k | 0 < k < |q.ts| && k < |q.ws| ensures classes.Apart(q.ws[k], q.ts[k - 1], q.ts[k]) {
      if k < n {
        assert classes.Apart(p.ws[k], p.ts[k - 1], p.ts[k]);
      } else {
        NotBoth(classes, p.ts[n - 1]);
      }
    }
  }

  lemma WordThenWhite(classes: Classes, p: Split, input: Bytes, c: Byte)
    requires SplitOk(classes, Word, p, input) && classes.Classify(c) == Whitespace
    ensures SplitOk(classes, InWhitespace, WhiteByte(TokenEnd(p), c), input + [c])
  {
    hide Interleaved;
    EndWord(classes, p, input);
    assert [] + [c] == [c];
  }

  /** A delimiter after whitespace that may be empty. */
  lemma AddDelimiter(classes: Classes, p: Split, input: Bytes, c: Byte)
    requires classes.Classify(c) == Delimiter && classes.Tokenized(p.ws, p.ts) && |p.ws| == |p.ts| && p.t == []
    requires classes.All(p.w, Whitespace) && input == Interleaved(p.ws, p.ts) + p.w
    ensures SplitOk(classes, InWhitespace, WhiteEnd(TokenEnd(TokenByte(p, c))), input + [c])
  {
    InterleavedAppend(p.ws, p.ts, p.w, [c]);
    hide Interleaved;
    assert [] + [c] == [c];
    var q := WhiteEnd(TokenEnd(TokenByte(p, c)));
    assert q.ts == p.ts + [[c]] && q.ws == p.ws + [p.w];
    assert classes.IsDelimiter([c]);
    assert q.ts[|q.ts| - 1] == [c] && classes.All([], Whitespace);
    NotBoth(classes, [c]);
    hide Classes.All;
    forall k | 0 < k < |q.ts| && k < |q.ws| ensures classes.Apart(q.ws[k], q.ts[k - 1], q.ts[k]) {
      if k < |p.ts| {
        assert classes.Apart(p.ws[k], p.ts[k - 1], p.ts[k]);
      }
    }
    assert Interleaved(q.ws, q.ts) + [] == Interleaved(q.ws, q.ts);
  }

  lemma WordThenDelimiter(classes: Classes, p: Split, input: Bytes, c: Byte)
    requires SplitOk(classes, Word, p, input) && classes.Classify(c) == Delimiter
    ensures SplitOk(classes, InWhitespace, WhiteEnd(TokenEnd(TokenByte(TokenEnd(p), c))), input + [c])
  {
    hide Interleaved;
    EndWord(classes, p, input);
    var q := TokenEnd(p);
    assert Interleaved(q.ws, q.ts) + [] == Interleaved(q.ws, q.ts);
    AddDelimiter(classes, q, input, c);
  }

  lemma WhiteThenWhite(classes: Classes, p: Split, input: Bytes, c: Byte)
    requires SplitOk(classes, InWhitespace, p, input) && classes.Classify(c) == Whitespace
    ensures SplitOk(classes, InWhitespace, WhiteByte(p, c), input + [c])
  {
    hide Interleaved;
    assert Interleaved(p.ws, p.ts) + p.w + [c] == Interleaved(p.ws, p.ts) + (p.w + [c]);
  }

  lemma WhiteThenWord(classes: Classes, p: Split, input: Bytes, c: Byte)
    requires SplitOk(classes, InWhitespace, p, input) && classes.Classify(c) == Other
    ensures SplitOk(classes, Word, TokenByte(WhiteEnd(p), c), input + [c])
  {
    hide Interleaved;
    var q := TokenByte(WhiteEnd(p), c);
    assert q.ws[..|p.ts|] == p.ws && [] + [c] == [c];
  }

  /** The end of the file. */
  lemma SplitEnd(classes: Classes, state: MatchState, p: Split, input: Bytes)
    requires SplitOk(classes, state, p, input)
    ensures var q := if state == Word then TokenEnd(WhiteEnd(p)) else WhiteEnd(p);
            && |q.ws| == |q.ts| + 1 && classes.Tokenized(q.ws, q.ts)
            && input == Interleaved(q.ws[..|q.ts|], q.ts) + q.ws[|q.ts|]
  {
    if state == Word {
      EndWord(classes, p, input);
      hide Interleaved;
      var q := TokenEnd(WhiteEnd(p));
      assert q.ws[..|q.ts|] == p.ws;
      assert Interleaved(p.ws, q.ts) + [] == Interleaved(p.ws, q.ts);
    } else {
      var q := WhiteEnd(p);
      assert q.ws[..|q.ts|] == p.ws;
      assert state == AtFileStart ==> Interleaved(p.ws, p.ts) + p.w == [];
    }
  }

  // ----- the streams

  class InputFile {
    const classes: Classes
    var tokens: Bytes
    var whitespace: Bytes
    var currentWord: Bytes
    var whitespaceBuffer: Bytes
    var words: seq<Bytes>       // the words handed to the interning table
    ghost var split: Split

    ghost predicate Valid()
      reads this
    {
      && tokens == Records(split.ts) + Escape(split.t) && currentWord == classes.FoldAll(split.t)
      && whitespace == Records(split.ws) && whitespaceBuffer == Escape(split.w)
      && words == classes.FoldTokens(split.ts)
    }

    constructor (classes: Classes)
      ensures Valid() && split == Split([], [], [], []) && this.classes == classes
    {
      this.classes := classes;
      tokens, whitespace, currentWord, whitespaceBuffer, words := [], [], [], [], [];
      split := Split([], [], [], []);
    }

    method WriteTokenChar(c: Byte)
      requires Valid()
      modifies this
      ensures Valid() && split == TokenByte(old(split), c)
    {
      hide Escape, Records;
      FoldAppend(classes, split.t, c);
      EscapeAppend(split.t, c);
      currentWord := currentWord + [classes.Fold(c)];
      if c == 0 || c == 1 {
        tokens := tokens + [1];
      }
      tokens := tokens + [c];
      Grown(Records(split.ts), Escape(split.t), c);
      hide Classes.FoldTokens;
      split := TokenByte(split, c);
    }

    method WriteEndOfToken()
      requires Valid()
      modifies this
      ensures Valid() && split == TokenEnd(old(split))
    {
      hide Escape, Records;
      RecordsAppend(split.ts, split.t);
      FoldTokensAppend(classes, split.ts, split.t);
      EscapeNothing();
      tokens := tokens + [0];
      words := words + [currentWord];
      currentWord := [];
      split := TokenEnd(split);
      assert tokens == Records(split.ts) + Escape(split.t);
    }

    method WriteWhitespaceChar(c: Byte)
      requires Valid()
      modifies this
      ensures Valid() && split == WhiteByte(old(split), c)
    {
      hide Escape, Records;
      EscapeAppend(split.w, c);
      Grown([], Escape(split.w), c);
      if c == 0 || c == 1 {
        whitespaceBuffer := whitespaceBuffer + [1];
      }
      whitespaceBuffer := whitespaceBuffer + [c];
      split := WhiteByte(split, c);
    }

    method HandleWhitespaceEnd()
      requires Valid()
      modifies this
      ensures Valid() && split == WhiteEnd(old(split))
    {
      hide Escape, Records;
      RecordsAppend(split.ws, split.w);
      EscapeNothing();
      whitespace := whitespace + whitespaceBuffer;
      whitespace := whitespace + [0];
      whitespaceBuffer := [];
      split := WhiteEnd(split);
    }

    /** Reads a byte in a given state. */
    method ReadByte(state: MatchState, c: Byte, ghost input: Bytes) returns (next: MatchState)
      requires Valid() && SplitOk(classes, state, split, input)
      modifies this
      ensures Valid() && SplitOk(classes, next, split, input + [c])
    {
      hide Valid, SplitOk;
      var category := classes.Classify(c);
      ghost var p := split;
      next := state;
      match state {
        case AtFileStart =>
          assert input == [] by { AtStart(classes, p, input); }
          FirstToken(classes, p, c);
          if category == Whitespace {
            WriteWhitespaceChar(c);
            next := InWhitespace;
          } else {
            HandleWhitespaceEnd();
            WriteTokenChar(c);
            if category == Delimiter {
              WriteEndOfToken();
              next := InWhitespace;
            } else {
              next := Word;
            }
          }
        case Word =>
          if category == Whitespace {
            WordThenWhite(classes, p, input, c);
            WriteEndOfToken();
            WriteWhitespaceChar(c);
            next := InWhitespace;
          } else if category == Delimiter {
            WordThenDelimiter(classes, p, input, c);
            WriteEndOfToken();
            WriteTokenChar(c);
            WriteEndOfToken();
            HandleWhitespaceEnd();
            next := InWhitespace;
          } else {
            WordByte(classes, p, input, c);
            WriteTokenChar(c);
          }
        case InWhitespace =>
          if category == Whitespace {
            WhiteThenWhite(classes, p, input, c);
            WriteWhitespaceChar(c);
          } else if category == Delimiter {
            InWhitespaceFacts(classes, p, input);
            AddDelimiter(classes, p, input, c);
            WriteTokenChar(c);
            WriteEndOfToken();
            HandleWhitespaceEnd();
          } else {
            WhiteThenWord(classes, p, input, c);
            HandleWhitespaceEnd();
            WriteTokenChar(c);
            next := Word;
          }
      }
    }

    /** Splits a file. */
    method ReadFile(input: Bytes)
      requires Valid() && split == Split([], [], [], [])
      modifies this
      ensures tokens == Records(split.ts) && whitespace == Records(split.ws)
      ensures words == classes.FoldTokens(split.ts)
      ensures |split.ws| == |split.ts| + 1 && classes.Tokenized(split.ws, split.ts)
      ensures input == Interleaved(split.ws[..|split.ts|], split.ts) + split.ws[|split.ts|]
    {
      hide SplitOk, Records, Escape, Interleaved, Classes.Tokenized;
      var state := AtFileStart;
      assert SplitOk(classes, AtFileStart, split, []) by { EmptySplit(classes); }
      for k := 0 to |input|
        invariant Valid() && SplitOk(classes, state, split, input[..k])
      {
        assert input[..k + 1] == input[..k] + [input[k]];
        state := ReadByte(state, input[k], input[..k]);
      }
      assert input[..|input|] == input;
      SplitEnd(classes, state, split, input);
      EndToken(classes, state, split, input);
      HandleWhitespaceEnd();
      if state == Word {
        WriteEndOfToken();
      }
      EscapeNothing();
      assert Records(split.ts) + [] == Records(split.ts);
    }
  }

  lemma AtStart(classes: Classes, p: Split, input: Bytes)
    requires SplitOk(classes, AtFileStart, p, input)
    ensures input == []
  {}

  lemma InWhitespaceFacts(classes: Classes, p: Split, input: Bytes)
    requires SplitOk(classes, InWhitespace, p, input)
    ensures classes.Tokenized(p.ws, p.ts) && |p.ws| == |p.ts| && p.t == []
    ensures classes.All(p.w, Whitespace) && input == Interleaved(p.ws, p.ts) + p.w
  {}

  lemma EmptySplit(classes: Classes)
    ensures SplitOk(classes, AtFileStart, Split([], [], [], []), [])
  {}

  lemma EndToken(classes: Classes, state: MatchState, p: Split, input: Bytes)
    requires SplitOk(classes, state, p, input)
    ensures state != Word ==> p.t == []
  {}

  // ----- reading back

  /** Reading whitespace and tokens in turn from the two streams gives the file. */
  method ReadBack(tokens: Bytes, whitespace: Bytes, count: int, ghost ws: seq<Bytes>, ghost ts: seq<Bytes>)
    returns (text: Bytes)
    requires tokens == Records(ts) && whitespace == Records(ws) && count == |ts| && |ws| == |ts| + 1
    ensures text == Interleaved(ws[..|ts|], ts) + ws[|ts|]
  {
    hide Records, Escape, Interleaved, RecordAt;
    text := [];
    var i, j := 0, 0;
    NothingRead(ws, ts);
    for k := 0 to count
      invariant i == |Records(ws[..k])| && j == |Records(ts[..k])| && text == Interleaved(ws[..k], ts[..k])
    {
      RecordsAt(ws, k);
      RecordsAt(ts, k);
      var w, t;
      w, i := ReadRecord(whitespace, i, ws[k]);
      t, j := ReadRecord(tokens, j, ts[k]);
      InterleavedAppend(ws[..k], ts[..k], ws[k], ts[k]);
      assert ws[..k] + [ws[k]] == ws[..k + 1] && ts[..k] + [ts[k]] == ts[..k + 1];
      text := text + w + t;
    }
    RecordsAt(ws, count);
    var w;
    w, i := ReadRecord(whitespace, i, ws[count]);
    assert ts[..count] == ts;
    text := text + w;
  }

  lemma NothingRead(ws: seq<Bytes>, ts: seq<Bytes>)
    ensures Records(ws[..0]) == [] == Records(ts[..0]) == Interleaved(ws[..0], ts[..0])
  {}

  /** Splitting a file and putting it together again. */
  method RoundTrip(classes: Classes, input: Bytes) returns (text: Bytes)
    ensures text == input
  {
    var file := new InputFile(classes);
    file.ReadFile(input);
    text := ReadBack(file.tokens, file.whitespace, |file.words|, file.split.ws, file.split.ts);
  }
}
