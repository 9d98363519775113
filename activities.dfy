/**
 * The text processing behind the month editor's activities field:
 * the string is split on commas, every piece is trimmed of white space,
 * and empty pieces are dropped. Order and duplicates are kept.
 */
module Activities {

  type Text = seq<char>

  /** The white space that trimming removes: the WhiteSpace and LineTerminator
      code points of ECMAScript (tab, line tabulation, form feed, space,
      no-break space, byte order mark, the Unicode space separators, and
      LF, CR, line and paragraph separator). */
  predicate IsWhitespace(c: char) {
    || c == '\t' || c == '\n' || c == '\U{000B}' || c == '\U{000C}' || c == '\r'
    || c == ' ' || c == '\U{00A0}' || c == '\U{1680}'
    || ('\U{2000}' <= c <= '\U{200A}')
    || c == '\U{2028}' || c == '\U{2029}' || c == '\U{202F}' || c == '\U{205F}'
    || c == '\U{3000}' || c == '\U{FEFF}'
  }

  predicate AllWhitespace(s: Text) {
    forall k :: 0 <= k < |s| ==> IsWhitespace(s[k])
  }

  /** Neither end of `s` is white space. */
  predicate Trimmed(s: Text) {
    s != [] ==> !IsWhitespace(s[0]) && !IsWhitespace(s[|s| - 1])
  }

  /** A stored activity: non-empty and already trimmed. */
  predicate IsActivity(a: Text) {
    a != [] && Trimmed(a)
  }

  /** `s` without its leading white space. */
  function TrimStart(s: Text): (r: Text)
    ensures |r| <= |s|
    ensures r != [] ==> !IsWhitespace(r[0])
  {
    if s != [] && IsWhitespace(s[0]) then TrimStart(s[1..]) else s
  }

  /** `s` without its trailing white space. */
  function TrimEnd(s: Text): (r: Text)
    ensures |r| <= |s|
    ensures r != [] ==> !IsWhitespace(r[|r| - 1])
  {
    if s != [] && IsWhitespace(s[|s| - 1]) then TrimEnd(s[..|s| - 1]) else s
  }

  /** TrimStart keeps a suffix and removes only white space. */
  lemma {:induction false} TrimStartSuffix(s: Text)
    ensures var n := |s| - |TrimStart(s)|;
      TrimStart(s) == s[n..] && AllWhitespace(s[..n])
  {
    if s != [] && IsWhitespace(s[0]) {
      TrimStartSuffix(s[1..]);
      var n := |s| - |TrimStart(s)|;
      assert s[..n] == [s[0]] + s[1..][..n - 1];
      assert s[1..][n - 1..] == s[n..];
    }
  }

  /** TrimEnd keeps a prefix and removes only white space. */
  lemma {:induction false} TrimEndPrefix(s: Text)
    ensures var n := |TrimEnd(s)|;
      TrimEnd(s) == s[..n] && AllWhitespace(s[n..])
  {
    if s != [] && IsWhitespace(s[|s| - 1]) {
      var p := s[..|s| - 1];
      TrimEndPrefix(p);
      var n := |TrimEnd(p)|;
      assert s[n..] == p[n..] + [s[|s| - 1]];
      assert p[..n] == s[..n];
    }
  }

  /** String.prototype.trim: white space removed from both ends. */
  function Trim(s: Text): (r: Text)
    ensures Trimmed(r)
    ensures |r| <= |s|
  {
    var r := TrimEnd(TrimStart(s));
    TrimEndPrefix(TrimStart(s));
    r
  }

  /** A prefix `r` of a suffix `t` of `s` is a slice of `s`, and what
      follows `r` in `t` is what follows it in `s`. */
  lemma PrefixOfSuffix(s: Text, t: Text, r: Text)
    requires |t| <= |s| && t == s[|s| - |t|..]
    requires |r| <= |t| && r == t[..|r|]
    ensures var i := |s| - |t|; r == s[i..i + |r|] && s[i + |r|..] == t[|r|..]
  {
  }

  /** Trim keeps one slice of `s`, and what lies before and after that
      slice is white space. */
  lemma TrimSlice(s: Text)
    ensures var i := |s| - |TrimStart(s)|; var r := Trim(s);
      && i + |r| <= |s| && r == s[i..i + |r|]
      && AllWhitespace(s[..i]) && AllWhitespace(s[i + |r|..])
  {
    var t := TrimStart(s);
    TrimStartSuffix(s);
    TrimEndPrefix(t);
    PrefixOfSuffix(s, t, TrimEnd(t));
  }

  /** Trim gives the empty text exactly for blank input. */
  lemma TrimBlank(s: Text)
    ensures Trim(s) == [] <==> AllWhitespace(s)
  {
    var t := TrimStart(s);
    var i := |s| - |t|;
    TrimSlice(s);
    if Trim(s) == [] {
      assert s == s[..i] + s[i..];
      AllWhitespaceConcat(s[..i], s[i..]);
    } else {
      assert s[i] == Trim(s)[0];
    }
  }

  /** Every character Trim keeps was in `s`. */
  lemma TrimKeeps(s: Text, c: char)
    requires c in Trim(s)
    ensures c in s
  {
    TrimSlice(s);
  }

  lemma AllWhitespaceConcat(a: Text, b: Text)
    requires AllWhitespace(a) && AllWhitespace(b)
    ensures AllWhitespace(a + b)
  {
  }

  /** Trimming leaves an already trimmed text as it is. */
  lemma TrimOfTrimmed(s: Text)
    requires Trimmed(s)
    ensures Trim(s) == s
  {
  }

  /** String.prototype.split with a one-character separator: the pieces
      between separators, in order; an empty string gives one empty piece. */
  function Split(s: Text, sep: char): (pieces: seq<Text>)
    ensures |pieces| >= 1
    ensures forall p :: p in pieces ==> sep !in p
    ensures Join(pieces, sep) == s
  {
    if s == [] then [[]]
    else
      var rest := Split(s[1..], sep);
      if s[0] == sep then
        assert ([[]] + rest)[1..] == rest;
        [[]] + rest
      else
        var pieces := [[s[0]] + rest[0]] + rest[1..];
        assert pieces[1..] == rest[1..];
        assert |rest| > 1 ==> Join(rest, sep) == rest[0] + [sep] + Join(rest[1..], sep);
        assert s == [s[0]] + s[1..];
        pieces
  }

  /** Array.prototype.join with a one-character separator on a non-empty
      list: the inverse of Split. (The empty list joins to the empty text,
      which Split maps to one empty piece, so it is left out here.) */
  function Join(pieces: seq<Text>, sep: char): (s: Text)
    requires |pieces| >= 1
    ensures |s| >= |pieces| - 1
  {
    if |pieces| == 1 then pieces[0] else pieces[0] + [sep] + Join(pieces[1..], sep)
  }

  /** Splitting text that begins with a separator-free `p` puts `p` in front
      of the first piece. */
  lemma {:induction false} SplitAfterPrefix(p: Text, t: Text, sep: char)
    requires sep !in p
    ensures Split(p + t, sep) == [p + Split(t, sep)[0]] + Split(t, sep)[1..]
  {
    var rest := Split(t, sep);
    if p == [] {
      assert p + t == t;
      assert p + rest[0] == rest[0];
      assert [p + rest[0]] + rest[1..] == rest;
    } else {
      SplitAfterPrefix(p[1..], t, sep);
      assert (p + t)[1..] == p[1..] + t;
      assert [p[0]] + (p[1..] + rest[0]) == p + rest[0];
    }
  }

  /** Split undoes Join when no piece holds the separator. */
  lemma {:induction false} SplitJoin(pieces: seq<Text>, sep: char)
    requires |pieces| >= 1
    requires forall p :: p in pieces ==> sep !in p
    ensures Split(Join(pieces, sep), sep) == pieces
  {
    if |pieces| == 1 {
      SplitAfterPrefix(pieces[0], [], sep);
      assert pieces[0] + [] == pieces[0];
    } else {
      var tail := Join(pieces[1..], sep);
      SplitJoin(pieces[1..], sep);
      SplitLeadingSeparator(tail, sep);
      SplitAfterPrefix(pieces[0], [sep] + tail, sep);
      assert pieces[0] + [sep] + tail == pieces[0] + ([sep] + tail);
      assert pieces[0] + [] == pieces[0];
      assert [pieces[0]] + pieces[1..] == pieces;
    }
  }

  /** A leading separator gives an empty first piece. */
  lemma SplitLeadingSeparator(t: Text, sep: char)
    ensures Split([sep] + t, sep) == [[]] + Split(t, sep)
  {
    assert ([sep] + t)[1..] == t;
  }

  lemma {:induction false} JoinAppend(xs: seq<Text>, ys: seq<Text>, sep: char)
    requires |xs| >= 1 && |ys| >= 1
    ensures Join(xs + ys, sep) == Join(xs, sep) + [sep] + Join(ys, sep)
  {
    if |xs| > 1 {
      JoinAppend(xs[1..], ys, sep);
      assert (xs + ys)[1..] == xs[1..] + ys;
    } else {
      assert (xs + ys)[1..] == ys;
    }
  }

  /** Splitting at a separator splits the pieces there too. */
  lemma SplitAtSeparator(a: Text, b: Text, sep: char)
    ensures Split(a + [sep] + b, sep) == Split(a, sep) + Split(b, sep)
  {
    var xs, ys := Split(a, sep), Split(b, sep);
    JoinAppend(xs, ys, sep);
    SplitJoin(xs + ys, sep);
  }

  /** No text of `texts` contains `c`. */
  predicate Avoids(texts: seq<Text>, c: char) {
    forall t :: t in texts ==> c !in t
  }

  /** `.map(s => s.trim()).filter(Boolean)`: trim every piece, keep the
      non-empty results in order. */
  function TrimAndDropEmpty(pieces: seq<Text>): (acts: seq<Text>)
    ensures |acts| <= |pieces|
    ensures forall a :: a in acts ==> IsActivity(a)
  {
    if pieces == [] then []
    else
      var t := Trim(pieces[0]);
      var rest := TrimAndDropEmpty(pieces[1..]);
      if t == [] then rest else [t] + rest
  }

  /** A character no piece holds is in no activity. */
  lemma {:induction false} TrimAndDropEmptyAvoids(pieces: seq<Text>, c: char)
    requires Avoids(pieces, c)
    ensures Avoids(TrimAndDropEmpty(pieces), c)
  {
    if pieces != [] {
      assert pieces[0] in pieces;
      assert Avoids(pieces[1..], c) by {
        forall p | p in pieces[1..] ensures c !in p { assert p in pieces; }
      }
      TrimAndDropEmptyAvoids(pieces[1..], c);
      if c in Trim(pieces[0]) { TrimKeeps(pieces[0], c); }
    }
  }

  lemma {:induction false} TrimAndDropEmptyAppend(xs: seq<Text>, ys: seq<Text>)
    ensures TrimAndDropEmpty(xs + ys) == TrimAndDropEmpty(xs) + TrimAndDropEmpty(ys)
  {
    if xs != [] {
      TrimAndDropEmptyAppend(xs[1..], ys);
      var t := Trim(xs[0]);
      var head := if t == [] then [] else [t];
      assert (xs + ys)[1..] == xs[1..] + ys;
      assert (xs + ys)[0] == xs[0];
      assert TrimAndDropEmpty(xs) == head + TrimAndDropEmpty(xs[1..]);
      assert TrimAndDropEmpty(xs + ys) == head + TrimAndDropEmpty(xs[1..] + ys);
    } else {
      assert xs + ys == ys;
    }
  }

  /** The activities list of the month editor: comma-separated pieces,
      trimmed, with empty ones dropped. */
  function ParseActivities(text: Text): (acts: seq<Text>)
    ensures forall a :: a in acts ==> IsActivity(a) && ',' !in a
    ensures |acts| <= |Split(text, ',')|
  {
    TrimAndDropEmptyAvoids(Split(text, ','), ',');
    TrimAndDropEmpty(Split(text, ','))
  }

  /** A comma-free text gives its trimmed self, or nothing when it is blank. */
  lemma ParseSinglePiece(t: Text)
    requires ',' !in t
    ensures ParseActivities(t) == if AllWhitespace(t) then [] else [Trim(t)]
  {
    SplitJoin([t], ',');
    TrimBlank(t);
    assert TrimAndDropEmpty([t])
      == (if Trim(t) == [] then [] else [Trim(t)]) + TrimAndDropEmpty([t][1..]);
  }

  /** Parsing is compositional at every comma: the activities of the text
      before a comma come first, those after it follow, nothing is merged
      or removed across the comma. */
  lemma ParseAtComma(a: Text, b: Text)
    ensures ParseActivities(a + [','] + b) == ParseActivities(a) + ParseActivities(b)
  {
    SplitAtSeparator(a, b, ',');
    TrimAndDropEmptyAppend(Split(a, ','), Split(b, ','));
  }

  /** Joining activities with commas and parsing the result gives them back. */
  lemma {:induction false} ParseJoined(acts: seq<Text>)
    requires |acts| >= 1
    requires forall a :: a in acts ==> IsActivity(a) && ',' !in a
    ensures ParseActivities(Join(acts, ',')) == acts
  {
    assert acts[0] in acts;
    TrimOfTrimmed(acts[0]);
    ParseSinglePiece(acts[0]);
    if |acts| > 1 {
      ParseJoined(acts[1..]);
      ParseAtComma(acts[0], Join(acts[1..], ','));
    }
  }

  /** Parsing is idempotent: the stored list survives being edited as
      comma-separated text and parsed again. */
  lemma ParseIdempotent(text: Text)
    ensures var acts := ParseActivities(text);
      && (acts != [] ==> ParseActivities(Join(acts, ',')) == acts)
      && (acts == [] ==> ParseActivities([]) == acts)
  {
    var acts := ParseActivities(text);
    if acts != [] {
      ParseJoined(acts);
    } else {
      ParseSinglePiece([]);
    }
  }

  /** The worked example: "run, swim,, gym " gives ["run", "swim", "gym"]. */
  lemma ParseExample(text: Text)
    requires text == "run, swim,, gym "
    ensures ParseActivities(text) == ["run", "swim", "gym"]
  {
    assert text == "run" + [','] + ([' '] + "swim" + [','] + ([] + [','] + ([' '] + "gym" + [' '])));
    ParseShape("run", "swim", "gym");
  }

  /** The shape of the worked example: a bare word, a word after a space,
      an empty piece and a word padded on both sides give the three words. */
  lemma ParseShape(r: Text, s: Text, g: Text)
    requires IsActivity(r) && IsActivity(s) && IsActivity(g)
    requires ',' !in r && ',' !in s && ',' !in g
    ensures ParseActivities(r + [','] + ([' '] + s + [','] + ([] + [','] + ([' '] + g + [' '])))) == [r, s, g]
  {
    ShapePieces(r, s, g);
    ParseAtCommas(r, [' '] + s, [], [' '] + g + [' ']);
  }

  lemma ShapePieces(r: Text, s: Text, g: Text)
    requires IsActivity(r) && IsActivity(s) && IsActivity(g)
    requires ',' !in r && ',' !in s && ',' !in g
    ensures ParseActivities(r) == [r] && ParseActivities([' '] + s) == [s]
    ensures ParseActivities([]) == [] && ParseActivities([' '] + g + [' ']) == [g]
  {
    assert AllWhitespace([' ']);
    assert [] + r + [] == r;
    PaddedWord([], r, []);
    assert [' '] + s + [] == [' '] + s;
    PaddedWord([' '], s, []);
    PaddedWord([' '], g, [' ']);
    ParseSinglePiece([]);
  }

  lemma ParseAtCommas(a: Text, b: Text, c: Text, d: Text)
    ensures ParseActivities(a + [','] + (b + [','] + (c + [','] + d)))
      == ParseActivities(a) + ParseActivities(b) + ParseActivities(c) + ParseActivities(d)
  {
    ParseAtComma(c, d);
    ParseAtComma(b, c + [','] + d);
    ParseAtComma(a, b + [','] + (c + [','] + d));
  }

  /** An activity with comma-free white space around it parses to the
      activity alone. */
  lemma PaddedWord(lead: Text, w: Text, trail: Text)
    requires IsActivity(w) && ',' !in w
    requires AllWhitespace(lead) && AllWhitespace(trail) && ',' !in lead && ',' !in trail
    ensures ParseActivities(lead + w + trail) == [w]
  {
    var t := lead + w + trail;
    var i, j := |lead|, |lead| + |w|;
    assert t[..i] == lead && t[i..j] == w && t[j..] == trail;
    assert t[i] == w[0] && t[j - 1] == w[|w| - 1];
    ParseWord(t, i, j);
  }

  /** Parsing a comma-free text whose non-blank part is `t[i..j]`. */
  lemma ParseWord(t: Text, i: nat, j: nat)
    requires i < j <= |t| && ',' !in t
    requires AllWhitespace(t[..i]) && AllWhitespace(t[j..])
    requires !IsWhitespace(t[i]) && !IsWhitespace(t[j - 1])
    ensures ParseActivities(t) == [t[i..j]]
  {
    ParseSinglePiece(t);
    TrimSlice(t);
    TrimBlank(t);
    var k := |t| - |TrimStart(t)|;
    var r := Trim(t);
    assert !AllWhitespace(t) by { assert !IsWhitespace(t[i]); }
    assert r != [];
    assert t[k] == r[0] && t[k + |r| - 1] == r[|r| - 1];
    SameBlankPrefix(t, i, k);
    SameBlankSuffix(t, j, k + |r|);
  }

  /** Two white-space prefixes each followed by a non-white character have
      the same length. */
  lemma SameBlankPrefix(t: Text, i: nat, k: nat)
    requires i < |t| && k < |t|
    requires AllWhitespace(t[..i]) && !IsWhitespace(t[i])
    requires AllWhitespace(t[..k]) && !IsWhitespace(t[k])
    ensures i == k
  {
    assert forall x :: 0 <= x < i ==> t[..i][x] == t[x];
    assert forall x :: 0 <= x < k ==> t[..k][x] == t[x];
  }

  /** Two white-space suffixes each preceded by a non-white character have
      the same length. */
  lemma SameBlankSuffix(t: Text, j: nat, m: nat)
    requires 0 < j <= |t| && 0 < m <= |t|
    requires AllWhitespace(t[j..]) && !IsWhitespace(t[j - 1])
    requires AllWhitespace(t[m..]) && !IsWhitespace(t[m - 1])
    ensures j == m
  {
    assert forall x :: j <= x < |t| ==> t[j..][x - j] == t[x];
    assert forall x :: m <= x < |t| ==> t[m..][x - m] == t[x];
  }
}
