/** Splitting and joining at a delimiter. A `string` is a sequence of Unicode scalar values. */
module Text {
  import opened Basics

  // The text before the first `sep`, and the text after it, if there is one.
  function Cut(s: string, sep: char): (r: (string, Option<string>))
    ensures sep !in r.0
    ensures s == r.0 + (if r.1.Some? then [sep] + r.1.value else "")
    ensures r.1.Some? <==> sep in s
  {
    if s == "" then ("", None)
    else if s[0] == sep then ("", Some(s[1..]))
    else
      var (head, rest) := Cut(s[1..], sep);
      ([s[0]] + head, rest)
  }

  // Every stretch between delimiters; at least one.
  function Split(s: string, sep: char): (pieces: seq<string>)
    ensures pieces != []
    decreases |s|
  {
    var (head, rest) := Cut(s, sep);
    match rest
    case None => [head]
    case Some(after) => [head] + Split(after, sep)
  }

  function Join(pieces: seq<string>, sep: char): string
    requires pieces != []
  {
    if |pieces| == 1 then pieces[0] else pieces[0] + [sep] + Join(pieces[1..], sep)
  }

  // `s` with `prefix` removed from its front.
  function StripPrefix(s: string, prefix: string): Option<string> {
    if prefix <= s then Some(s[|prefix|..]) else None
  }

  function StripSlash(s: string): string {
    if s != "" && s[0] == '/' then s[1..] else s
  }

  ghost predicate Clean(pieces: seq<string>, sep: char) {
    forall p :: p in pieces ==> sep !in p
  }

  function Count(s: string, c: char): nat {
    if s == "" then 0 else (if s[0] == c then 1 else 0) + Count(s[1..], c)
  }

  lemma {:induction false} CutFindsFirst(head: string, sep: char, rest: string)
    requires sep !in head
    ensures Cut(head + [sep] + rest, sep) == (head, Some(rest))
  {
    var s := head + [sep] + rest;
    if head == "" {
      assert s[0] == sep && s[1..] == rest;
    } else {
      CutFindsFirst(head[1..], sep, rest);
      assert s[0] == head[0] && s[1..] == head[1..] + [sep] + rest;
      assert [head[0]] + head[1..] == head;
    }
  }

  lemma {:induction false} CutFindsNone(s: string, sep: char)
    requires sep !in s
    ensures Cut(s, sep) == (s, None)
  {
    if s != "" {
      CutFindsNone(s[1..], sep);
      assert [s[0]] + s[1..] == s;
    }
  }

  lemma {:induction false} SplitOfJoin(pieces: seq<string>, sep: char)
    requires pieces != [] && Clean(pieces, sep)
    ensures Split(Join(pieces, sep), sep) == pieces
  {
    assert pieces[0] in pieces;
    if |pieces| == 1 {
      CutFindsNone(pieces[0], sep);
    } else {
      assert forall p :: p in pieces[1..] ==> p in pieces;
      SplitOfJoin(pieces[1..], sep);
      CutFindsFirst(pieces[0], sep, Join(pieces[1..], sep));
    }
  }

  lemma {:induction false} JoinOfSplit(s: string, sep: char)
    ensures Join(Split(s, sep), sep) == s
    ensures Clean(Split(s, sep), sep)
    decreases |s|
  {
    var (head, rest) := Cut(s, sep);
    if rest.Some? {
      JoinOfSplit(rest.value, sep);
      assert Split(s, sep)[1..] == Split(rest.value, sep);
    }
  }

  lemma {:induction false} CountAppend(a: string, b: string, c: char)
    ensures Count(a + b, c) == Count(a, c) + Count(b, c)
  {
    if a == "" {
      assert a + b == b;
    } else {
      CountAppend(a[1..], b, c);
      assert (a + b)[0] == a[0] && (a + b)[1..] == a[1..] + b;
    }
  }

  lemma {:induction false} CountAbsent(s: string, c: char)
    requires c !in s
    ensures Count(s, c) == 0
  {
    if s != "" {
      CountAbsent(s[1..], c);
    }
  }

  // Joined clean pieces show exactly one delimiter between each two.
  lemma {:induction false} JoinCountsDelimiters(pieces: seq<string>, sep: char)
    requires pieces != [] && Clean(pieces, sep)
    ensures Count(Join(pieces, sep), sep) == |pieces| - 1
  {
    assert pieces[0] in pieces;
    CountAbsent(pieces[0], sep);
    if |pieces| > 1 {
      assert forall p :: p in pieces[1..] ==> p in pieces;
      JoinCountsDelimiters(pieces[1..], sep);
      var rest := Join(pieces[1..], sep);
      CountAppend(pieces[0] + [sep], rest, sep);
      CountAppend(pieces[0], [sep], sep);
      assert [sep][1..] == "";
      assert Count([sep], sep) == 1;
    }
  }
}
