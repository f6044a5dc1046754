/** Reading the target list: splitting the file contents into lines, keeping the lines that
    name a site, and splitting one kept line into url, username and password
    (src/poster.js:143,158-160 and src/checker.js:83,99). */
module Targets {
  import opened Wrappers

  // ---------------------------------------------------------------------------------------
  // Line splitting: `contents.split(/\r\n?|\n/)`
  // ---------------------------------------------------------------------------------------

  /** A line holds neither of the two line-break characters. */
  predicate NoBreak(s: string)
  {
    '\r' !in s && '\n' !in s
  }

  /** The three line endings the splitting pattern matches: CR LF, a lone CR, a lone LF. */
  predicate IsLineBreak(b: string)
  {
    b == "\r\n" || b == "\r" || b == "\n"
  }

  /** `text.split(/\r\n?|\n/)`: a CR directly followed by LF is one break (the pattern is
      greedy); a lone CR or LF is a break of its own. An empty text gives one empty line. */
  function SplitLines(text: string): (lines: seq<string>)
    ensures |lines| >= 1
    ensures forall k :: 0 <= k < |lines| ==> NoBreak(lines[k])
  {
    if text == [] then [""]
    else if text[0] == '\n' then [""] + SplitLines(text[1..])
    else if text[0] == '\r' then
      [""] + SplitLines(if |text| > 1 && text[1] == '\n' then text[2..] else text[1..])
    else
      var rest := SplitLines(text[1..]);
      [[text[0]] + rest[0]] + rest[1..]
  }

  /** The text made of `lines` with the line ending `brk` written between neighbours. */
  function JoinLines(lines: seq<string>, brk: string): string
    requires |lines| >= 1
  {
    if |lines| == 1 then lines[0] else lines[0] + (brk + JoinLines(lines[1..], brk))
  }

  /** Splitting undoes writing lines with any one of the three line endings between them: the
      lines come back, in order. */
  lemma {:induction false} SplitLinesJoinLines(lines: seq<string>, brk: string)
    requires |lines| >= 1 && IsLineBreak(brk)
    requires forall k :: 0 <= k < |lines| ==> NoBreak(lines[k])
    ensures SplitLines(JoinLines(lines, brk)) == lines
  {
    if |lines| == 1 {
      SplitLinesNoBreak(lines[0]);
    } else {
      var tail := JoinLines(lines[1..], brk);
      SplitLinesJoinLines(lines[1..], brk);
      JoinLinesHead(lines[1..], brk);
      SplitLinesAfterBreak(brk, tail, lines[1]);
      assert (brk + tail)[0] == brk[0] == '\r' || (brk + tail)[0] == brk[0] == '\n';
      SplitLinesOfLine(lines[0], brk + tail);
    }
  }

  /** Lines joined with CR LF or a lone CR do not start with LF, so a lone CR written in
      front of them stays a break of its own. */
  lemma JoinLinesHead(lines: seq<string>, brk: string)
    requires |lines| >= 1 && IsLineBreak(brk)
    requires forall k :: 0 <= k < |lines| ==> NoBreak(lines[k])
    ensures brk != "\n" ==> JoinLines(lines, brk) == [] || JoinLines(lines, brk)[0] != '\n'
  {
    if |lines| > 1 {
      var joined := JoinLines(lines, brk);
      assert joined == lines[0] + (brk + JoinLines(lines[1..], brk));
      if lines[0] == [] {
        assert joined[0] == brk[0];
      } else {
        assert joined[0] == lines[0][0];
      }
    }
  }

  /** A break at the head of a text ends an empty line; the next line starts after it. */
  lemma SplitLinesAfterBreak(b: string, rest: string, first: string)
    requires IsLineBreak(b) && NoBreak(first)
    requires |SplitLines(rest)| >= 1 && SplitLines(rest)[0] == first
    requires b == "\r" ==> rest == [] || rest[0] != '\n'
    ensures SplitLines(b + rest) == [""] + SplitLines(rest)
  {
    if b == "\r\n" {
      assert (b + rest)[2..] == rest;
    } else {
      assert (b + rest)[1..] == rest;
      if b == "\r" && |b + rest| > 1 {
        assert (b + rest)[1] == rest[0];
      }
    }
  }

  /** A text without breaks is one line. */
  lemma {:induction false} SplitLinesNoBreak(line: string)
    requires NoBreak(line)
    ensures SplitLines(line) == [line]
  {
    if line != [] {
      SplitLinesNoBreak(line[1..]);
      assert [line[0]] + line[1..] == line;
    }
  }

  /** A line without breaks in front of a text that starts with a break is the first line of
      the split; the lines of the text follow. */
  lemma {:induction false} SplitLinesOfLine(line: string, rest: string)
    requires NoBreak(line)
    requires rest != [] && (rest[0] == '\r' || rest[0] == '\n')
    ensures SplitLines(line + rest) == [line] + SplitLines(rest)[1..]
  {
    if line == [] {
      assert line + rest == rest;
    } else {
      SplitLinesOfLine(line[1..], rest);
      assert (line + rest)[1..] == line[1..] + rest;
      assert [line[0]] + line[1..] == line;
    }
  }

  // ---------------------------------------------------------------------------------------
  // Target filter: `.filter(line => line.startsWith('http'))`
  // ---------------------------------------------------------------------------------------

  /** A target line starts with `http` (which also admits `https`); other lines are comments,
      blank lines or anything else, and are dropped without a diagnostic. */
  predicate IsTarget(line: string)
  {
    |line| >= 4 && line[..4] == "http"
  }

  /** The lines kept by the filter, in their original order. */
  function KeepTargets(lines: seq<string>): (kept: seq<string>)
    ensures forall l :: l in kept <==> l in lines && IsTarget(l)
    ensures |kept| <= |lines|
  {
    if lines == [] then []
    else if IsTarget(lines[0]) then [lines[0]] + KeepTargets(lines[1..])
    else KeepTargets(lines[1..])
  }

  /** The filter keeps order: filtering two consecutive parts of a list and concatenating the
      results is filtering the whole list. */
  lemma {:induction false} KeepTargetsAppend(a: seq<string>, b: seq<string>)
    ensures KeepTargets(a + b) == KeepTargets(a) + KeepTargets(b)
  {
    if a == [] {
      assert a + b == b;
    } else {
      assert (a + b)[1..] == a[1..] + b;
      KeepTargetsAppend(a[1..], b);
    }
  }

  /** A list of target lines passes the filter unchanged. */
  lemma {:induction false} KeepTargetsKeepsAll(lines: seq<string>)
    requires forall k :: 0 <= k < |lines| ==> IsTarget(lines[k])
    ensures KeepTargets(lines) == lines
  {
    if lines != [] {
      KeepTargetsKeepsAll(lines[1..]);
    }
  }

  /** The target list of a file: the file's lines that start with `http`, in file order
      (`KeepTargetsAppend` gives the order). A string is a target exactly when it is such a
      line, and no target holds a line break. */
  function TargetLines(contents: string): (targets: seq<string>)
    ensures targets == KeepTargets(SplitLines(contents))
    ensures forall l :: l in targets <==> l in SplitLines(contents) && IsTarget(l)
    ensures forall k :: 0 <= k < |targets| ==> IsTarget(targets[k]) && NoBreak(targets[k])
  {
    var lines := SplitLines(contents);
    assert forall k :: 0 <= k < |KeepTargets(lines)| ==> KeepTargets(lines)[k] in lines;
    KeepTargets(lines)
  }

  // ---------------------------------------------------------------------------------------
  // Field splitting: `line.split(re)` with re = /:(?=[^\/]*$)/ for ":" and the separator
  // itself otherwise
  // ---------------------------------------------------------------------------------------

  /** How a line is cut into fields. `Literal(c)`: at every `c`. `ColonLookahead`: at a colon
      only when no `/` occurs anywhere after it in the line, so that the colon of
      `http://` or `https://` is never a field boundary. */
  datatype SplitRule = Literal(sep: char) | ColonLookahead
  {
    /** The character written between fields. */
    function Sep(): char
    {
      if ColonLookahead? then ':' else sep
    }
  }

  /** src/poster.js picks the lookahead rule exactly for the separator ":"; src/checker.js
      always splits on ";". */
  function RuleFor(sep: char): (rule: SplitRule)
    ensures rule.Sep() == sep
    ensures rule.ColonLookahead? <==> sep == ':'
  {
    if sep == ':' then ColonLookahead else Literal(sep)
  }

  /** The head of `s` is a field boundary. For the lookahead rule `s` is the rest of the
      line, so `s[1..]` is everything after the colon up to the end of the line. */
  predicate BoundaryAtHead(rule: SplitRule, s: string)
    requires s != []
  {
    match rule
    case Literal(c) => s[0] == c
    case ColonLookahead => s[0] == ':' && '/' !in s[1..]
  }

  /** The number of positions of `s` at which a boundary starts. */
  function Boundaries(rule: SplitRule, s: string): nat
  {
    if s == [] then 0 else (if BoundaryAtHead(rule, s) then 1 else 0) + Boundaries(rule, s[1..])
  }

  /** `line.split(re)`: the pieces between boundaries, in order, one more than there are
      boundaries; a line without a boundary is a single piece, and the empty line is one
      empty piece. */
  function SplitFields(rule: SplitRule, line: string): (pieces: seq<string>)
    ensures |pieces| == Boundaries(rule, line) + 1
  {
    if line == [] then [""]
    else if BoundaryAtHead(rule, line) then [""] + SplitFields(rule, line[1..])
    else
      var rest := SplitFields(rule, line[1..]);
      [[line[0]] + rest[0]] + rest[1..]
  }

  /** `pieces.join(sep)`. */
  function JoinFields(pieces: seq<string>, sep: char): string
    requires |pieces| >= 1
  {
    if |pieces| == 1 then pieces[0] else pieces[0] + ([sep] + JoinFields(pieces[1..], sep))
  }

  /** No character of `f` is a boundary, whatever follows `f` in the line. Under the lookahead
      rule this means every colon of `f` has a `/` after it inside `f`. */
  predicate NoBoundaryIn(rule: SplitRule, f: string)
  {
    match rule
    case Literal(c) => c !in f
    case ColonLookahead => forall k :: 0 <= k < |f| && f[k] == ':' ==> '/' in f[k + 1..]
  }

  /** A field that may stand after a boundary: under the lookahead rule it holds neither a
      colon nor a slash. */
  predicate LaterFieldOk(rule: SplitRule, f: string)
  {
    match rule
    case Literal(c) => c !in f
    case ColonLookahead => ':' !in f && '/' !in f
  }

  /** What every split looks like: the first piece has no boundary in it and every later
      piece is a `LaterFieldOk` field (with ":", no later piece holds a `/`). */
  predicate WellSplit(rule: SplitRule, pieces: seq<string>)
  {
    |pieces| >= 1 && NoBoundaryIn(rule, pieces[0]) &&
    forall k :: 1 <= k < |pieces| ==> LaterFieldOk(rule, pieces[k])
  }

  /** Joining the pieces with the separator gives back the line. */
  lemma {:induction false} JoinSplitFields(rule: SplitRule, line: string)
    ensures JoinFields(SplitFields(rule, line), rule.Sep()) == line
  {
    if line != [] {
      var rest := SplitFields(rule, line[1..]);
      JoinSplitFields(rule, line[1..]);
      var sep := rule.Sep();
      if BoundaryAtHead(rule, line) {
        JoinFieldsEmptyFirst(rest, sep);
      } else {
        JoinFieldsExtendFirst(line[0], rest, sep);
      }
      assert line == [line[0]] + line[1..];
    }
  }

  /** An empty first piece contributes nothing but the separator after it. */
  lemma JoinFieldsEmptyFirst(rest: seq<string>, sep: char)
    requires |rest| >= 1
    ensures JoinFields([""] + rest, sep) == [sep] + JoinFields(rest, sep)
  {
    assert ([""] + rest)[1..] == rest;
  }

  /** A character put in front of the first piece stands in front of the joined line. */
  lemma JoinFieldsExtendFirst(c: char, rest: seq<string>, sep: char)
    requires |rest| >= 1
    ensures JoinFields([[c] + rest[0]] + rest[1..], sep) == [c] + JoinFields(rest, sep)
  {
    var p := [[c] + rest[0]] + rest[1..];
    if |rest| > 1 {
      assert p[1..] == rest[1..];
      assert JoinFields(p, sep) == ([c] + rest[0]) + ([sep] + JoinFields(rest[1..], sep));
    }
  }

  /** A character of a joined line that is not the separator lies in one of the pieces. */
  lemma {:induction false} InJoinFields(pieces: seq<string>, sep: char, x: char)
    requires |pieces| >= 1 && x != sep && x in JoinFields(pieces, sep)
    ensures exists k :: 0 <= k < |pieces| && x in pieces[k]
  {
    if |pieces| > 1 {
      var tail := JoinFields(pieces[1..], sep);
      if x !in pieces[0] {
        assert x in tail;
        InJoinFields(pieces[1..], sep, x);
        var k :| 0 <= k < |pieces| - 1 && x in pieces[1..][k];
        assert x in pieces[k + 1];
      }
    }
  }

  /** A character of a piece is a character of the joined line. */
  lemma {:induction false} PieceInJoinFields(pieces: seq<string>, sep: char, k: nat, x: char)
    requires k < |pieces| && x in pieces[k]
    ensures x in JoinFields(pieces, sep)
  {
    if k > 0 {
      PieceInJoinFields(pieces[1..], sep, k - 1, x);
    }
  }

  /** Every split has the shape `WellSplit` describes. With ":" in particular the scheme
      colon of `http://` stays in the first piece and no later piece contains a `/`. */
  lemma {:induction false} SplitFieldsWellSplit(rule: SplitRule, line: string)
    ensures WellSplit(rule, SplitFields(rule, line))
  {
    if line != [] {
      var rest := SplitFields(rule, line[1..]);
      SplitFieldsWellSplit(rule, line[1..]);
      JoinSplitFields(rule, line[1..]);
      if BoundaryAtHead(rule, line) {
        if rule.ColonLookahead? {
          // nothing after a boundary colon holds a slash, so no colon there has one after it
          if '/' in rest[0] {
            PieceInJoinFields(rest, ':', 0, '/');
          }
          assert ':' !in rest[0];
        }
      } else {
        var first := [line[0]] + rest[0];
        if rule.ColonLookahead? {
          forall k | 0 <= k < |first| && first[k] == ':'
            ensures '/' in first[k + 1..]
          {
            if k == 0 {
              // the head colon is no boundary: a slash follows, and only the first piece can
              // hold it
              InJoinFields(rest, ':', '/');
              var m :| 0 <= m < |rest| && '/' in rest[m];
              assert m == 0;
              assert first[1..] == rest[0];
            } else {
              assert first[k + 1..] == rest[0][k..];
            }
          }
        }
        assert SplitFields(rule, line)[1..] == rest[1..];
      }
    }
  }

  /** A boundary in front of a later field, followed by more later fields, splits there. */
  lemma {:induction false} SplitFieldsOfJoin(rule: SplitRule, pieces: seq<string>)
    requires WellSplit(rule, pieces)
    ensures SplitFields(rule, JoinFields(pieces, rule.Sep())) == pieces
  {
    var sep := rule.Sep();
    if |pieces| == 1 {
      SplitFieldsNoBoundary(rule, pieces[0], []);
      assert pieces[0] + [] == pieces[0];
      assert pieces == [pieces[0]];
    } else {
      var tail := JoinFields(pieces[1..], sep);
      SplitFieldsOfJoin(rule, pieces[1..]);
      if rule.ColonLookahead? && '/' in tail {
        InJoinFields(pieces[1..], sep, '/');
      }
      assert BoundaryAtHead(rule, [sep] + tail);
      assert ([sep] + tail)[1..] == tail;
      assert SplitFields(rule, [sep] + tail) == [""] + pieces[1..];
      SplitFieldsNoBoundary(rule, pieces[0], [sep] + tail);
      assert JoinFields(pieces, sep) == pieces[0] + ([sep] + tail);
      assert pieces[0] + "" == pieces[0];
      assert [pieces[0]] + pieces[1..] == pieces;
    }
  }

  /** A field without boundaries in front of a text that is empty or starts at a boundary is
      the first piece of the split. */
  lemma {:induction false} SplitFieldsNoBoundary(rule: SplitRule, f: string, rest: string)
    requires NoBoundaryIn(rule, f)
    requires rest == [] || BoundaryAtHead(rule, rest)
    ensures SplitFields(rule, f + rest) == [f + SplitFields(rule, rest)[0]] + SplitFields(rule, rest)[1..]
  {
    if f == [] {
      assert f + rest == rest;
    } else {
      assert (f + rest)[1..] == f[1..] + rest;
      assert NoBoundaryIn(rule, f[1..]) by {
        if rule.ColonLookahead? {
          forall k | 0 <= k < |f[1..]| && f[1..][k] == ':'
            ensures '/' in f[1..][k + 1..]
          {
            assert f[k + 2..] == f[1..][k + 1..];
            assert f[k + 1] == ':';
          }
        }
      }
      SplitFieldsNoBoundary(rule, f[1..], rest);
      assert !BoundaryAtHead(rule, f + rest) by {
        if rule.ColonLookahead? && f[0] == ':' {
          var s := '/';
          assert s in f[1..];
          var k :| 0 <= k < |f[1..]| && f[1..][k] == s;
          assert (f + rest)[1..][k] == s;
        }
      }
      assert [f[0]] + (f[1..] + SplitFields(rule, rest)[0]) == f + SplitFields(rule, rest)[0];
    }
  }

  // ---------------------------------------------------------------------------------------
  // `const [url, username, password] = line.split(re)`
  // ---------------------------------------------------------------------------------------

  /** The destructured fields; a missing array element is `undefined`, here `None`. */
  datatype Fields = Fields(url: string, username: Option<string>, password: Option<string>)

  /** The first three pieces of the split become url, username and password; pieces beyond
      the third are dropped. */
  function ParseTarget(rule: SplitRule, line: string): (f: Fields)
    ensures f.url == SplitFields(rule, line)[0]
    ensures f.username.Some? <==> |SplitFields(rule, line)| >= 2
    ensures f.password.Some? <==> |SplitFields(rule, line)| >= 3
    ensures f.username.Some? ==> f.username.value == SplitFields(rule, line)[1]
    ensures f.password.Some? ==> f.password.value == SplitFields(rule, line)[2]
  {
    var pieces := SplitFields(rule, line);
    Fields(pieces[0],
           if |pieces| >= 2 then Some(pieces[1]) else None,
           if |pieces| >= 3 then Some(pieces[2]) else None)
  }

  /** A well-split list of at least three pieces, joined, parses back to its first three
      pieces. */
  lemma ParseTargetOfJoin(rule: SplitRule, pieces: seq<string>)
    requires WellSplit(rule, pieces) && |pieces| >= 3
    ensures ParseTarget(rule, JoinFields(pieces, rule.Sep()))
            == Fields(pieces[0], Some(pieces[1]), Some(pieces[2]))
  {
    SplitFieldsOfJoin(rule, pieces);
  }

  /** A line written as `url SEP username SEP password` parses back to its three parts,
      provided the url has no boundary in it and neither credential holds the separator
      (with ":", nor a slash). */
  lemma ParseTargetRoundTrip(rule: SplitRule, url: string, username: string, password: string)
    requires NoBoundaryIn(rule, url)
    requires LaterFieldOk(rule, username) && LaterFieldOk(rule, password)
    ensures ParseTarget(rule, url + [rule.Sep()] + username + [rule.Sep()] + password)
            == Fields(url, Some(username), Some(password))
  {
    var pieces := [url, username, password];
    var sep := rule.Sep();
    assert WellSplit(rule, pieces);
    assert pieces[1..] == [username, password] && pieces[1..][1..] == [password];
    assert JoinFields(pieces[1..], sep) == username + [sep] + password;
    assert JoinFields(pieces, sep) == url + [sep] + username + [sep] + password;
    ParseTargetOfJoin(rule, pieces);
  }

  /** With ":" every `/` of the line stays in the url piece; so the colon of `http://` or
      `https://` is never a boundary and the url keeps its scheme. */
  lemma {:induction false} SlashesStayInUrl(line: string, j: nat)
    requires j < |line| && line[j] == '/'
    ensures j < |SplitFields(ColonLookahead, line)[0]|
  {
    if !BoundaryAtHead(ColonLookahead, line) && j > 0 {
      assert line[1..][j - 1] == '/';
      SlashesStayInUrl(line[1..], j - 1);
    }
  }

  /** A url made of a part without colons, one colon, and a part without colons that starts
      with a slash has no boundary under the ":" rule. */
  lemma SchemeUrlNoBoundary(scheme: string, rest: string)
    requires ':' !in scheme && ':' !in rest && rest != [] && rest[0] == '/'
    ensures NoBoundaryIn(ColonLookahead, scheme + [':'] + rest)
  {
    var url := scheme + [':'] + rest;
    assert forall k :: 0 <= k < |scheme| ==> url[k] == scheme[k];
    assert forall k :: 0 <= k < |rest| ==> url[|scheme| + 1 + k] == rest[k];
    assert url[|scheme| + 1..][0] == rest[0];
  }

  /** With ":" the scheme colon is never a boundary, but a port colon with no slash after it
      is: `http://a.com:80:bob:pw` gives url `http://a.com`, username `80` and password
      `bob`, and `pw` is dropped. */
  lemma ColonRuleSplitsAtPort(line: string)
    requires line == "http://a.com:80:bob:pw"
    ensures ParseTarget(ColonLookahead, line) == Fields("http://a.com", Some("80"), Some("bob"))
  {
    var url, port, user, pw := "http://a.com", "80", "bob", "pw";
    assert url == "http" + [':'] + "//a.com";
    SchemeUrlNoBoundary("http", "//a.com");
    var pieces := [url, port, user, pw];
    assert WellSplit(ColonLookahead, pieces);
    assert JoinFields([pw], ':') == pw;
    assert [user, pw][1..] == [pw];
    assert JoinFields([user, pw], ':') == user + ([':'] + pw);
    assert [port, user, pw][1..] == [user, pw];
    assert JoinFields([port, user, pw], ':') == port + ([':'] + (user + ([':'] + pw)));
    assert pieces[1..] == [port, user, pw];
    assert JoinFields(pieces, ':') == line;
    ParseTargetOfJoin(ColonLookahead, pieces);
  }
}
