/** Text as XML CDATA sections, and reading them back by sections 2.4, 2.7 and 4.6 of XML 1.0, before any
    line-end normalisation. */
module CData {
  import opened Text

  const OPEN := "<![CDATA["
  const CLOSE := "]]>"
  const GREATER := "&gt;"

  // ----- Reading -----

  ghost function Prepend(c: char, rest: Option<string>): Option<string> {
    match rest
    case None => None
    case Some(s) => Some([c] + s)
  }

  /** Character data outside CDATA sections: no bare markup, and no bare section end. */
  ghost function ReadContent(markup: string): Option<string>
    decreases |markup|
  {
    if markup == "" then Some("")
    else if OPEN <= markup then ReadSection(markup[|OPEN|..])
    else if GREATER <= markup then Prepend('>', ReadContent(markup[|GREATER|..]))
    else if markup[0] == '<' || markup[0] == '&' || CLOSE <= markup then None
    else Prepend(markup[0], ReadContent(markup[1..]))
  }

  /** The inside of a CDATA section, up to the first section end. */
  ghost function ReadSection(markup: string): Option<string>
    decreases |markup|
  {
    if markup == "" then None
    else if CLOSE <= markup then ReadContent(markup[|CLOSE|..])
    else Prepend(markup[0], ReadSection(markup[1..]))
  }

  /** Bare markup and a bare section end are no character data, and a section needs an end. */
  lemma ReaderIsStrict()
    ensures ReadContent("]]>") == None && ReadContent("<") == None && ReadContent("&") == None
    ensures ReadSection("") == None && ReadContent("<![CDATA[") == None
  {
    assert "<![CDATA["[9..] == "";
  }

  // ----- Writing -----

  ghost predicate HasAt(s: string, i: nat) {
    i <= |s| && CLOSE <= s[i..]
  }

  /** What is written after the opening mark: each section end in the text is split between the end of one
      section, some character data, and the start of the next. */
  ghost function Written(s: string): string {
    if s == "" then CLOSE
    else if CLOSE <= s then CLOSE + ("]]" + GREATER + OPEN + Written(s[|CLOSE|..]))
    else [s[0]] + Written(s[1..])
  }

  /** The first section end at or after a position; -1 if there is none. */
  method StrStr(s: string, from: nat) returns (i: int)
    requires from <= |s|
    ensures i == -1 || (from <= i && HasAt(s, i))
    ensures forall k :: from <= k && (i == -1 || k < i) ==> !HasAt(s, k)
  {
    i := from;
    while i + |CLOSE| <= |s|
      invariant from <= i <= |s|
      invariant forall k :: from <= k < i ==> !HasAt(s, k)
    {
      if s[i] == ']' && s[i + 1] == ']' && s[i + 2] == '>' {
        return;
      }
      i := i + 1;
    }
    i := -1;
  }

  /** A piece without section end is written as it is. */
  lemma {:induction false} PieceWritten(s: string, from: nat, to: nat)
    requires from <= to <= |s| && forall k :: from <= k < to ==> !HasAt(s, k)
    ensures Written(s[from..]) == s[from..to] + Written(s[to..])
    decreases |s| - from
  {
    if from < to {
      CharacterWritten(s, from);
      PieceWritten(s, from + 1, to);
      Prefixed(s, from, to, Written(s[to..]));
    }
  }

  lemma CharacterWritten(s: string, i: nat)
    requires i < |s| && !HasAt(s, i)
    ensures Written(s[i..]) == [s[i]] + Written(s[i + 1..])
  {
    assert s[i..][1..] == s[i + 1..];
  }

  lemma Prefixed(s: string, from: nat, to: nat, rest: string)
    requires from < to <= |s|
    ensures [s[from]] + (s[from + 1..to] + rest) == s[from..to] + rest
  {
    assert s[from..to] == [s[from]] + s[from + 1..to];
  }

  lemma CloseWritten(s: string, from: nat, next: nat, stream: string)
    requires from <= next && HasAt(s, next) && forall k :: from <= k < next ==> !HasAt(s, k)
    ensures stream + Written(s[from..])
         == stream + s[from..next] + (CLOSE + ("]]" + GREATER + OPEN)) + Written(s[next + |CLOSE|..])
  {
    PieceWritten(s, from, next);
    assert s[next..][|CLOSE|..] == s[next + |CLOSE|..];
    WrittenRegrouped(stream, s[from..next], CLOSE, "]]" + GREATER + OPEN, Written(s[next + |CLOSE|..]));
  }

  lemma WrittenRegrouped(a: string, b: string, c: string, d: string, e: string)
    ensures a + (b + (c + (d + e))) == a + b + (c + d) + e
  {
  }

  lemma LastWritten(s: string, from: nat, stream: string)
    requires from <= |s| && forall k :: from <= k <= |s| ==> !HasAt(s, k)
    ensures stream + Written(s[from..]) == stream + s[from..] + CLOSE
  {
    PieceWritten(s, from, |s|);
    assert s[|s|..] == "" && s[from..|s|] == s[from..];
  }

  /** C strings hold no NUL before their end. */
  method OutputXmlCDataSection(data: string) returns (stream: string)
    requires NulFree(data)
    ensures stream == OPEN + Written(data)
  {
    var segment := 0;
    stream := OPEN;
    assert data[0..] == data;
    while true
      invariant 0 <= segment <= |data|
      invariant stream + Written(data[segment..]) == OPEN + Written(data)
      decreases |data| - segment
    {
      var next := StrStr(data, segment);
      if next == -1 {
        LastWritten(data, segment, stream);
        stream := stream + data[segment..];
        break;
      }
      CloseWritten(data, segment, next, stream);
      stream := stream + data[segment..next];
      stream := stream + (CLOSE + ("]]" + GREATER + OPEN));
      segment := next + |CLOSE|;
    }
    stream := stream + CLOSE;
  }

  // ----- The round trip -----

  /** The characters between two sections stand for a section end. */
  lemma SplitReads(rest: string)
    ensures ReadContent("]]" + GREATER + OPEN + rest) ==
            match ReadSection(rest) case None => None case Some(s) => Some(CLOSE + s)
  {
    var a, b, c, d := "]]" + GREATER + OPEN + rest, "]" + GREATER + OPEN + rest, GREATER + OPEN + rest, OPEN + rest;
    assert a[1..] == b && b[1..] == c && c[|GREATER|..] == d && d[|OPEN|..] == rest;
    assert ReadContent(d) == ReadSection(rest);
    assert ReadContent(c) == Prepend('>', ReadContent(d)) by {
      assert c[..|GREATER|] == GREATER && c[0] == '&';
    }
    assert ReadContent(b) == Prepend(']', ReadContent(c)) by {
      assert b[0] == ']' && b[1] == '&';
    }
    assert ReadContent(a) == Prepend(']', ReadContent(b)) by {
      assert a[0] == ']' && a[1] == ']' && a[2] == '&';
    }
    if ReadSection(rest).Some? {
      var s := ReadSection(rest).value;
      assert [']'] + ([']'] + (['>'] + s)) == CLOSE + s;
    }
  }

  lemma WrittenHead(s: string)
    ensures Written(s) != "" && Written(s)[0] == if s == "" then ']' else s[0]
  {
  }

  /** No section end arises where the text has none. */
  lemma NoEarlyClose(s: string)
    requires s != "" && !(CLOSE <= s)
    ensures !(CLOSE <= Written(s))
  {
    var rest := s[1..];
    assert Written(s) == [s[0]] + Written(rest);
    if rest == "" {
      assert Written(s)[2] == CLOSE[1];
    } else if CLOSE <= rest {
      assert Written(s)[2] == CLOSE[1];
    } else {
      WrittenHead(rest[1..]);
      assert Written(s)[2] == Written(rest[1..])[0];
      if |s| > 2 {
        assert rest[1..][0] == s[2] && Written(s)[1] == s[1];
      } else {
        assert rest[1..] == "";
      }
    }
  }

  /** Reading the sections gives exactly the text, however its section ends and brackets overlap. */
  lemma {:induction false} WrittenReadsBack(s: string)
    ensures ReadSection(Written(s)) == Some(s)
  {
    if s == "" {
      assert CLOSE[|CLOSE|..] == "";
    } else if CLOSE <= s {
      var rest := Written(s[|CLOSE|..]);
      WrittenReadsBack(s[|CLOSE|..]);
      SplitReads(rest);
      assert Written(s)[|CLOSE|..] == "]]" + GREATER + OPEN + rest;
      assert s == CLOSE + s[|CLOSE|..];
    } else {
      NoEarlyClose(s);
      WrittenReadsBack(s[1..]);
      assert Written(s)[1..] == Written(s[1..]);
      assert s == [s[0]] + s[1..];
    }
  }

  lemma SectionsReadBack(data: string)
    ensures ReadContent(OPEN + Written(data)) == Some(data)
  {
    WrittenReadsBack(data);
    assert (OPEN + Written(data))[|OPEN|..] == Written(data);
  }
}
