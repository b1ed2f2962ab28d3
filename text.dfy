/** The text helpers of app/utils.py: `convert_text_to_bold`,
    `get_mentions_as_list` (a `re.findall` scan) and `get_mentions_as_string`
    (a `" ".join` of its results). */
module Text {
  import opened Wrappers
  import TimeParse

  // ---------------------------------------------------------------------
  // convert_text_to_bold

  /** The terminal escape sequences that switch bold on and off. */
  const BoldOn: string := "\U{1b}[1m"
  const BoldOff: string := "\U{1b}[0m"

  /** `convert_text_to_bold(text)`: undone by `StripBold`, eight characters
      longer than the text. */
  function ConvertTextToBold(s: string): (r: string)
    ensures |r| == |s| + 8
    ensures StripBold(r) == Some(s)
  {
    var r := BoldOn + s + BoldOff;
    assert r[..4] == BoldOn;
    assert r[|r| - 4..] == BoldOff;
    assert r[4..|r| - 4] == s;
    r
  }

  /** The inverse of `ConvertTextToBold`: the text between the two escape
      sequences, when both are there. */
  function StripBold(r: string): Option<string> {
    if |r| >= 8 && r[..4] == BoldOn && r[|r| - 4..] == BoldOff then Some(r[4..|r| - 4]) else None
  }

  // ---------------------------------------------------------------------
  // get_mentions_as_list: re.findall(r"<@!\d+>|<@&\d+>|<#\d+>|<@\d+>|@everyone|@here", text)

  /** A mention token, stated on its own: a bracket form `<prefix digits>` with
      at least one digit, or one of the two literal words. */
  predicate IsBracketToken(t: string, prefix: string) {
    |t| > |prefix| + 1 && t[..|prefix|] == prefix && t[|t| - 1] == '>'
    && forall k :: |prefix| <= k < |t| - 1 ==> TimeParse.IsDigit(t[k])
  }

  predicate IsMention(t: string) {
    IsBracketToken(t, "<@!") || IsBracketToken(t, "<@&") || IsBracketToken(t, "<#") || IsBracketToken(t, "<@")
    || t == "@everyone" || t == "@here"
  }

  /** One bracket alternative tried at `i`: the length it matches, if any. */
  function BracketAt(s: string, i: nat, prefix: string): Option<nat>
    requires i <= |s|
  {
    var p := |prefix|;
    if i + p <= |s| && s[i..i + p] == prefix then
      var n := TimeParse.DigitRun(s, i + p);
      if n > 0 && i + p + n < |s| && s[i + p + n] == '>' then Some(p + n + 1) else None
    else None
  }

  /** One literal alternative tried at `i`. */
  function WordAt(s: string, i: nat, w: string): Option<nat>
    requires i <= |s|
  {
    if i + |w| <= |s| && s[i..i + |w|] == w then Some(|w|) else None
  }

  /** The alternation tried at `i`, alternatives in pattern order; the first
      that matches decides. */
  function MatchAt(s: string, i: nat): (r: Option<nat>)
    requires i <= |s|
    ensures r.Some? ==> 0 < r.value && i + r.value <= |s|
  {
    if BracketAt(s, i, "<@!").Some? then BracketAt(s, i, "<@!")
    else if BracketAt(s, i, "<@&").Some? then BracketAt(s, i, "<@&")
    else if BracketAt(s, i, "<#").Some? then BracketAt(s, i, "<#")
    else if BracketAt(s, i, "<@").Some? then BracketAt(s, i, "<@")
    else if WordAt(s, i, "@everyone").Some? then WordAt(s, i, "@everyone")
    else WordAt(s, i, "@here")
  }

  lemma BracketAtSound(s: string, i: nat, prefix: string)
    requires i <= |s| && BracketAt(s, i, prefix).Some?
    ensures var n := BracketAt(s, i, prefix).value; i + n <= |s| && IsBracketToken(s[i..i + n], prefix)
  {
    var p := |prefix|;
    var n := BracketAt(s, i, prefix).value;
    var t := s[i..i + n];
    assert t[..p] == s[i..i + p];
    forall k | p <= k < |t| - 1 ensures TimeParse.IsDigit(t[k]) {
      assert t[k] == s[i + k];
    }
  }

  lemma BracketAtComplete(s: string, i: nat, prefix: string, n: nat)
    requires i + n <= |s| && IsBracketToken(s[i..i + n], prefix)
    ensures BracketAt(s, i, prefix) == Some(n)
  {
    var p := |prefix|;
    var t := s[i..i + n];
    assert s[i..i + p] == t[..p];
    forall k | i + p <= k < i + n - 1 ensures TimeParse.IsDigit(s[k]) {
      assert s[k] == t[k - i];
    }
    assert s[i + n - 1] == t[n - 1];
    TimeParse.DigitRunIs(s, i + p, n - p - 1);
  }

  /** A bracket alternative fails where the text differs from its prefix. */
  lemma BracketMisses(s: string, i: nat, prefix: string, k: nat)
    requires i <= |s| && k < |prefix| && i + k < |s| && s[i + k] != prefix[k]
    ensures BracketAt(s, i, prefix).None?
  {
  }

  lemma WordMisses(s: string, i: nat, w: string, k: nat)
    requires i <= |s| && k < |w| && i + k < |s| && s[i + k] != w[k]
    ensures WordAt(s, i, w).None?
  {
  }

  /** The scanner agrees with the stand-alone definition of a mention: the
      alternation matches `n` characters at `i` exactly when those characters
      form a mention token. */
  lemma MatchAtIsMention(s: string, i: nat, n: nat)
    requires i <= |s|
    ensures MatchAt(s, i) == Some(n) <==> i + n <= |s| && IsMention(s[i..i + n])
  {
    if MatchAt(s, i) == Some(n) {
      MatchSound(s, i);
    }
    if i + n <= |s| && IsMention(s[i..i + n]) {
      MatchComplete(s, i, n);
    }
  }

  lemma MatchSound(s: string, i: nat)
    requires i <= |s| && MatchAt(s, i).Some?
    ensures var n := MatchAt(s, i).value; i + n <= |s| && IsMention(s[i..i + n])
  {
    var n := MatchAt(s, i).value;
    if BracketAt(s, i, "<@!").Some? {
      BracketAtSound(s, i, "<@!");
    } else if BracketAt(s, i, "<@&").Some? {
      BracketAtSound(s, i, "<@&");
    } else if BracketAt(s, i, "<#").Some? {
      BracketAtSound(s, i, "<#");
    } else if BracketAt(s, i, "<@").Some? {
      BracketAtSound(s, i, "<@");
    } else if WordAt(s, i, "@everyone").Some? {
      assert s[i..i + n] == "@everyone";
    } else {
      assert s[i..i + n] == "@here";
    }
  }

  lemma MatchComplete(s: string, i: nat, n: nat)
    requires i + n <= |s| && IsMention(s[i..i + n])
    ensures MatchAt(s, i) == Some(n)
  {
    var t := s[i..i + n];
    if IsBracketToken(t, "<@!") {
      BracketAtComplete(s, i, "<@!", n);
    } else if IsBracketToken(t, "<@&") {
      RoleComplete(s, i, n);
    } else if IsBracketToken(t, "<#") {
      ChannelComplete(s, i, n);
    } else if IsBracketToken(t, "<@") {
      UserComplete(s, i, n);
    } else {
      WordComplete(s, i, n);
    }
  }

  lemma RoleComplete(s: string, i: nat, n: nat)
    requires i + n <= |s| && IsBracketToken(s[i..i + n], "<@&")
    ensures MatchAt(s, i) == Some(n)
  {
    var t := s[i..i + n];
    assert s[i + 2] == t[2] == '&';
    BracketMisses(s, i, "<@!", 2);
    BracketAtComplete(s, i, "<@&", n);
  }

  lemma ChannelComplete(s: string, i: nat, n: nat)
    requires i + n <= |s| && IsBracketToken(s[i..i + n], "<#")
    ensures MatchAt(s, i) == Some(n)
  {
    var t := s[i..i + n];
    assert s[i + 1] == t[1] == '#';
    BracketMisses(s, i, "<@!", 1);
    BracketMisses(s, i, "<@&", 1);
    BracketAtComplete(s, i, "<#", n);
  }

  lemma UserComplete(s: string, i: nat, n: nat)
    requires i + n <= |s| && IsBracketToken(s[i..i + n], "<@")
    ensures MatchAt(s, i) == Some(n)
  {
    var t := s[i..i + n];
    assert s[i + 1] == t[1] == '@' && s[i + 2] == t[2];
    assert TimeParse.IsDigit(t[2]);
    BracketMisses(s, i, "<@!", 2);
    BracketMisses(s, i, "<@&", 2);
    BracketMisses(s, i, "<#", 1);
    BracketAtComplete(s, i, "<@", n);
  }

  lemma WordComplete(s: string, i: nat, n: nat)
    requires i + n <= |s| && (s[i..i + n] == "@everyone" || s[i..i + n] == "@here")
    ensures MatchAt(s, i) == Some(n)
  {
    var t := s[i..i + n];
    assert s[i] == t[0] == '@';
    BracketMisses(s, i, "<@!", 0);
    BracketMisses(s, i, "<@&", 0);
    BracketMisses(s, i, "<#", 0);
    BracketMisses(s, i, "<@", 0);
    if t == "@everyone" {
      assert WordAt(s, i, "@everyone") == Some(n);
    } else {
      assert s[i + 1] == t[1] == 'h';
      WordMisses(s, i, "@everyone", 1);
      assert WordAt(s, i, "@here") == Some(n);
    }
  }

  /** Where one match was found in the text. */
  datatype Span = Span(start: nat, end: nat)

  /** A matcher for a text of length `len`: at each position it reports the
      length of the match there, if any; a match is never empty and never runs
      past the end. */
  ghost predicate IsMatcher(len: nat, m: nat -> Option<nat>) {
    forall j: nat :: j < len && m(j).Some? ==> 0 < m(j).value && j + m(j).value <= len
  }

  /** The matches `re.findall` reports from position `i` on: left to right,
      each one resuming the scan right after the previous match, and a
      position without a match skipped. */
  function SpansFrom(len: nat, i: nat, m: nat -> Option<nat>): (r: seq<Span>)
    requires i <= len && IsMatcher(len, m)
    ensures forall k :: 0 <= k < |r| ==> i <= r[k].start < r[k].end <= len
    ensures forall k :: 0 <= k < |r| - 1 ==> r[k].end <= r[k + 1].start
    decreases len - i
  {
    if i == len then []
    else match m(i)
      case Some(n) => [Span(i, i + n)] + SpansFrom(len, i + n, m)
      case None => SpansFrom(len, i + 1, m)
  }

  ghost predicate IsMatch(m: nat -> Option<nat>, sp: Span) {
    m(sp.start) == Some(sp.end - sp.start)
  }

  /** Every reported span is a match at its start. */
  lemma {:induction false} SpansAreMatches(len: nat, i: nat, m: nat -> Option<nat>)
    requires i <= len && IsMatcher(len, m)
    ensures forall k :: 0 <= k < |SpansFrom(len, i, m)| ==> IsMatch(m, SpansFrom(len, i, m)[k])
    decreases len - i
  {
    if i < len {
      var r := SpansFrom(len, i, m);
      match m(i)
      case Some(n) =>
        var rest := SpansFrom(len, i + n, m);
        SpansAreMatches(len, i + n, m);
        assert r == [Span(i, i + n)] + rest;
        forall k | 0 <= k < |r| ensures IsMatch(m, r[k]) {
          if k == 0 {
            assert r[0] == Span(i, i + n);
          } else {
            assert r[k] == rest[k - 1];
          }
        }
      case None =>
        SpansAreMatches(len, i + 1, m);
        assert r == SpansFrom(len, i + 1, m);
    }
  }

  ghost predicate Covered(spans: seq<Span>, j: nat) {
    exists k :: 0 <= k < |spans| && spans[k].start <= j < spans[k].end
  }

  lemma HeadCovers(head: Span, rest: seq<Span>, j: nat)
    requires head.start <= j < head.end
    ensures Covered([head] + rest, j)
  {
    assert ([head] + rest)[0] == head;
  }

  lemma TailCovers(head: Span, rest: seq<Span>, j: nat)
    requires Covered(rest, j)
    ensures Covered([head] + rest, j)
  {
    var k :| 0 <= k < |rest| && rest[k].start <= j < rest[k].end;
    assert ([head] + rest)[k + 1] == rest[k];
  }

  /** Nothing is missed: no match starts at a position the reported matches
      leave uncovered. */
  lemma {:induction false} SpansMissNothing(len: nat, i: nat, m: nat -> Option<nat>)
    requires i <= len && IsMatcher(len, m)
    ensures forall j :: i <= j < len && !Covered(SpansFrom(len, i, m), j) ==> m(j).None?
    decreases len - i
  {
    if i < len {
      var r := SpansFrom(len, i, m);
      match m(i)
      case Some(n) =>
        var rest := SpansFrom(len, i + n, m);
        SpansMissNothing(len, i + n, m);
        assert r == [Span(i, i + n)] + rest;
        forall j | i <= j < len && !Covered(r, j) ensures m(j).None? {
          if j < i + n {
            HeadCovers(Span(i, i + n), rest, j);
            assert false;
          }
          if Covered(rest, j) {
            TailCovers(Span(i, i + n), rest, j);
            assert false;
          }
        }
      case None =>
        var rest := SpansFrom(len, i + 1, m);
        SpansMissNothing(len, i + 1, m);
        assert r == rest;
        forall j | i <= j < len && !Covered(r, j) ensures m(j).None? {
          if j > i {
            assert !Covered(rest, j);
          }
        }
    }
  }

  /** The mention pattern as a matcher over `s`. */
  function MentionMatcher(s: string): (m: nat -> Option<nat>)
    ensures IsMatcher(|s|, m)
    ensures forall j: nat :: j <= |s| ==> m(j) == MatchAt(s, j)
  {
    (j: nat) => if j <= |s| then MatchAt(s, j) else None
  }

  function MentionSpans(s: string): seq<Span> {
    SpansFrom(|s|, 0, MentionMatcher(s))
  }

  /** `get_mentions_as_list(text)`. */
  function GetMentionsAsList(s: string): (r: seq<string>)
    ensures |r| == |MentionSpans(s)|
  {
    var spans := MentionSpans(s);
    seq(|spans|, k requires 0 <= k < |spans| => s[spans[k].start..spans[k].end])
  }

  /** A mention token occupies `s[j..j + n]`. */
  ghost predicate MentionAt(s: string, j: nat, n: nat) {
    j + n <= |s| && IsMention(s[j..j + n])
  }

  /** `re.findall` as the source uses it: every reported item is a mention
      token taken from the text, left to right and non-overlapping, and no
      mention starts at a position the reported ones leave uncovered. */
  lemma MentionsFindAll(s: string)
    ensures var spans := MentionSpans(s); var r := GetMentionsAsList(s);
      && (forall k :: 0 <= k < |r| ==> r[k] == s[spans[k].start..spans[k].end] && IsMention(r[k]))
      && (forall k :: 0 <= k < |spans| - 1 ==> spans[k].end <= spans[k + 1].start)
      && (forall j, n :: 0 <= j < |s| && !Covered(spans, j) ==> !MentionAt(s, j, n))
  {
    var m := MentionMatcher(s);
    var spans := MentionSpans(s);
    var r := GetMentionsAsList(s);
    SpansAreMatches(|s|, 0, m);
    forall k | 0 <= k < |r| ensures IsMention(r[k]) {
      assert r[k] == s[spans[k].start..spans[k].end];
      assert IsMatch(m, spans[k]);
      assert m(spans[k].start) == MatchAt(s, spans[k].start);
      MatchAtIsMention(s, spans[k].start, spans[k].end - spans[k].start);
    }
    SpansMissNothing(|s|, 0, m);
    forall j, n | 0 <= j < |s| && !Covered(spans, j) ensures !MentionAt(s, j, n) {
      assert m(j) == MatchAt(s, j);
      MatchAtIsMention(s, j, n);
    }
  }

  /** The mention Discord writes for a user, `<@id>` (a member's `mention`). */
  function UserMention(id: nat): (t: string)
    ensures IsMention(t)
  {
    var ds := TimeParse.Decimal(id);
    var t := "<@" + ds + ">";
    assert t[..2] == "<@" && t[|t| - 1] == '>';
    assert forall k :: 2 <= k < |t| - 1 ==> t[k] == ds[k - 2];
    t
  }

  lemma SliceParts(s: string, i: nat, a: string, b: string)
    requires i <= |s| && s[i..] == a + b
    ensures i + |a| <= |s| && s[i..i + |a|] == a && s[i + |a|..] == b
  {
    assert s[i..i + |a|] == s[i..][..|a|];
    assert s[i + |a|..] == s[i..][|a|..];
  }

  /** No mention starts at a space. */
  lemma MatchNotAtSpace(s: string, j: nat)
    requires j <= |s|
    ensures MatchAt(s, j).Some? ==> j < |s| && s[j] != ' '
  {
    if MatchAt(s, j).Some? {
      var n := MatchAt(s, j).value;
      MatchSound(s, j);
      MentionIsWord(s[j..j + n]);
      assert s[j..j + n][0] == s[j];
    }
  }

  /** For any matcher: a match of length `n` at `i` with no match right after
      it is reported, and the scan resumes one further on. */
  lemma StepOverSpace(len: nat, i: nat, n: nat, m: nat -> Option<nat>)
    requires IsMatcher(len, m) && i + n < len && m(i) == Some(n) && m(i + n).None?
    ensures SpansFrom(len, i, m) == [Span(i, i + n)] + SpansFrom(len, i + n + 1, m)
  {
    assert SpansFrom(len, i + n, m) == SpansFrom(len, i + n + 1, m);
  }

  /** The spans `r` cut exactly the strings `xs` out of `s`. */
  ghost predicate Cuts(s: string, r: seq<Span>, xs: seq<string>) {
    && |r| == |xs|
    && forall k :: 0 <= k < |r| ==> r[k].start <= r[k].end <= |s| && s[r[k].start..r[k].end] == xs[k]
  }

  lemma CutsCons(s: string, sp: Span, r: seq<Span>, x: string, xs: seq<string>)
    requires sp.start <= sp.end <= |s| && s[sp.start..sp.end] == x && Cuts(s, r, xs)
    ensures Cuts(s, [sp] + r, [x] + xs)
  {
    var r' := [sp] + r;
    var xs' := [x] + xs;
    forall k | 0 <= k < |r'| ensures r'[k].start <= r'[k].end <= |s| && s[r'[k].start..r'[k].end] == xs'[k] {
      if k > 0 {
        assert r'[k] == r[k - 1] && xs'[k] == xs[k - 1];
      }
    }
  }

  ghost predicate AllMentions(xs: seq<string>) {
    forall k :: 0 <= k < |xs| ==> IsMention(xs[k])
  }

  /** How matcher `m` sees `s` from `i` on when `s[i..]` is `xs` joined by
      single spaces followed by `pad`: a match of each item where it starts,
      nothing at each separating space, and nothing at the pad. */
  ghost predicate Laid(s: string, i: nat, xs: seq<string>, pad: string, m: nat -> Option<nat>)
    decreases |xs|
  {
    && i <= |s|
    && if xs == [] then
         (pad == "" && i == |s|) || (pad == " " && i + 1 == |s| && m(i).None?)
       else
         var n := |xs[0]|;
         && i < |s| && i + n <= |s| && m(i) == Some(n) && s[i..i + n] == xs[0]
         && if |xs| == 1 then Laid(s, i + n, [], pad, m)
            else i + n < |s| && m(i + n).None? && Laid(s, i + n + 1, xs[1..], pad, m)
  }

  /** Matcher `m` answers as `MatchAt` does on `s`. */
  ghost predicate Agrees(s: string, m: nat -> Option<nat>) {
    forall j: nat {:trigger MatchAt(s, j)} :: j <= |s| ==> m(j) == MatchAt(s, j)
  }

  /** A run of mentions joined by single spaces, with at most one space after
      it, is laid out for the mention matcher as `Laid` says. Each step first
      reads the layout off the text (`...Parts`), then what the matcher does
      there (`...Step`). */
  lemma {:induction false} JoinedLaid(s: string, i: nat, xs: seq<string>, pad: string, m: nat -> Option<nat>)
    requires i <= |s| && (pad == "" || pad == " ") && Agrees(s, m)
    requires AllMentions(xs) && s[i..] == Join(xs) + pad
    ensures Laid(s, i, xs, pad, m)
    decreases |xs|, 1
  {
    if xs == [] {
      PadParts(s, i, pad);
      PadStep(s, i, pad, m);
    } else if |xs| == 1 {
      LastParts(s, i, xs, pad);
      LastStep(s, i, xs, pad, m);
    } else {
      NextParts(s, i, xs, pad);
      NextLaid(s, i, xs, pad, m);
      NextStep(s, i, xs, pad, m);
    }
  }

  /** What is left after the run: nothing, or one final space. */
  ghost predicate PadAt(s: string, j: nat, pad: string) {
    (pad == "" && j == |s|) || (pad == " " && j + 1 == |s| && s[j] == ' ')
  }

  lemma PadParts(s: string, j: nat, pad: string)
    requires j <= |s| && (pad == "" || pad == " ") && s[j..] == pad
    ensures PadAt(s, j, pad)
  {
    assert |s[j..]| == |pad|;
    if pad == " " {
      assert s[j] == s[j..][0];
    }
  }

  lemma PadStep(s: string, j: nat, pad: string, m: nat -> Option<nat>)
    requires j <= |s| && PadAt(s, j, pad) && Agrees(s, m)
    ensures Laid(s, j, [], pad, m)
  {
    if pad == " " {
      MatchNotAtSpace(s, j);
    }
  }

  /** The only mention of the run, and the pad after it. */
  lemma LastParts(s: string, i: nat, xs: seq<string>, pad: string)
    requires i <= |s| && (pad == "" || pad == " ")
    requires |xs| == 1 && AllMentions(xs) && s[i..] == Join(xs) + pad
    ensures i < |s| && i + |xs[0]| <= |s| && s[i..i + |xs[0]|] == xs[0] && IsMention(xs[0])
    ensures PadAt(s, i + |xs[0]|, pad)
  {
    var t := xs[0];
    assert IsMention(t);
    MentionIsWord(t);
    SliceParts(s, i, t, pad);
    PadParts(s, i + |t|, pad);
  }

  lemma LastStep(s: string, i: nat, xs: seq<string>, pad: string, m: nat -> Option<nat>)
    requires |xs| == 1 && i < |s| && i + |xs[0]| <= |s| && s[i..i + |xs[0]|] == xs[0] && IsMention(xs[0])
    requires PadAt(s, i + |xs[0]|, pad) && Agrees(s, m)
    ensures Laid(s, i, xs, pad, m)
  {
    MatchComplete(s, i, |xs[0]|);
    PadStep(s, i + |xs[0]|, pad, m);
    LaidLast(s, i, xs, pad, m);
  }

  lemma NextLaid(s: string, i: nat, xs: seq<string>, pad: string, m: nat -> Option<nat>)
    requires i <= |s| && (pad == "" || pad == " ") && |xs| > 1 && Agrees(s, m)
    requires i + |xs[0]| < |s| && s[i + |xs[0]| + 1..] == Join(xs[1..]) + pad
    requires AllMentions(xs[1..])
    ensures Laid(s, i + |xs[0]| + 1, xs[1..], pad, m)
    decreases |xs|, 0
  {
    JoinedLaid(s, i + |xs[0]| + 1, xs[1..], pad, m);
  }

  /** The first mention of the run, the space after it, and the rest. */
  lemma NextParts(s: string, i: nat, xs: seq<string>, pad: string)
    requires i <= |s|
    requires |xs| > 1 && AllMentions(xs) && s[i..] == Join(xs) + pad
    ensures i + |xs[0]| < |s| && s[i..i + |xs[0]|] == xs[0] && IsMention(xs[0]) && s[i + |xs[0]|] == ' '
    ensures s[i + |xs[0]| + 1..] == Join(xs[1..]) + pad && AllMentions(xs[1..])
  {
    JoinCons(xs, pad);
    assert IsMention(xs[0]);
    HeadSlices(s, i, xs[0], Join(xs[1..]) + pad);
    MentionsTail(xs);
  }

  lemma NextStep(s: string, i: nat, xs: seq<string>, pad: string, m: nat -> Option<nat>)
    requires |xs| > 1 && i + |xs[0]| < |s| && s[i..i + |xs[0]|] == xs[0] && IsMention(xs[0]) && s[i + |xs[0]|] == ' '
    requires Agrees(s, m) && Laid(s, i + |xs[0]| + 1, xs[1..], pad, m)
    ensures Laid(s, i, xs, pad, m)
  {
    HeadMatches(s, i, |xs[0]|);
    LaidNext(s, i, xs, pad, m);
  }

  lemma JoinCons(xs: seq<string>, pad: string)
    requires |xs| > 1
    ensures Join(xs) + pad == xs[0] + (" " + (Join(xs[1..]) + pad))
  {
  }

  lemma MentionsTail(xs: seq<string>)
    requires |xs| > 0 && AllMentions(xs)
    ensures AllMentions(xs[1..])
  {
    forall k | 0 <= k < |xs| - 1 ensures IsMention(xs[1..][k]) {
      assert xs[1..][k] == xs[k + 1];
    }
  }

  lemma LaidLast(s: string, i: nat, xs: seq<string>, pad: string, m: nat -> Option<nat>)
    requires |xs| == 1 && i < |s| && i + |xs[0]| <= |s| && Agrees(s, m)
    requires MatchAt(s, i) == Some(|xs[0]|) && s[i..i + |xs[0]|] == xs[0]
    requires Laid(s, i + |xs[0]|, [], pad, m)
    ensures Laid(s, i, xs, pad, m)
  {
  }

  /** A match of length `n` at `i` and none right after it. */
  ghost predicate Gap(s: string, i: nat, n: nat) {
    i + n < |s| && MatchAt(s, i) == Some(n) && MatchAt(s, i + n).None?
  }

  lemma LaidNext(s: string, i: nat, xs: seq<string>, pad: string, m: nat -> Option<nat>)
    requires |xs| > 1 && i + |xs[0]| < |s| && s[i..i + |xs[0]|] == xs[0] && Agrees(s, m)
    requires Gap(s, i, |xs[0]|) && Laid(s, i + |xs[0]| + 1, xs[1..], pad, m)
    ensures Laid(s, i, xs, pad, m)
  {
  }

  /** A mention at `i` followed by a space: matched at `i`, not at the space. */
  lemma HeadMatches(s: string, i: nat, n: nat)
    requires i + n < |s| && IsMention(s[i..i + n]) && s[i + n] == ' '
    ensures Gap(s, i, n)
  {
    MatchComplete(s, i, n);
    MatchNotAtSpace(s, i + n);
  }

  lemma HeadSlices(s: string, i: nat, t: string, rest: string)
    requires i <= |s| && s[i..] == t + (" " + rest)
    ensures i + |t| < |s| && s[i..i + |t|] == t && s[i + |t|] == ' ' && s[i + |t| + 1..] == rest
  {
    SliceParts(s, i, t, " " + rest);
    SliceParts(s, i + |t|, " ", rest);
    assert s[i + |t|] == s[i + |t|..][0];
  }

  /** What `Laid` describes, the scan reports: exactly the items. */
  lemma {:induction false} LaidCuts(s: string, i: nat, xs: seq<string>, pad: string, m: nat -> Option<nat>)
    requires IsMatcher(|s|, m) && Laid(s, i, xs, pad, m)
    ensures Cuts(s, SpansFrom(|s|, i, m), xs)
    decreases |xs|, 1
  {
    if xs == [] {
      PadCuts(s, i, pad, m);
    } else if |xs| == 1 {
      LastCuts(s, i, xs, pad, m);
    } else {
      NextCuts(s, i, xs, pad, m);
    }
  }

  lemma PadCuts(s: string, i: nat, pad: string, m: nat -> Option<nat>)
    requires IsMatcher(|s|, m) && Laid(s, i, [], pad, m)
    ensures Cuts(s, SpansFrom(|s|, i, m), [])
  {
    if pad == " " {
      assert SpansFrom(|s|, i, m) == SpansFrom(|s|, i + 1, m);
    }
  }

  lemma LastCuts(s: string, i: nat, xs: seq<string>, pad: string, m: nat -> Option<nat>)
    requires IsMatcher(|s|, m) && |xs| == 1 && Laid(s, i, xs, pad, m)
    ensures Cuts(s, SpansFrom(|s|, i, m), xs)
  {
    var n := |xs[0]|;
    PadCuts(s, i + n, pad, m);
    assert SpansFrom(|s|, i, m) == [Span(i, i + n)] + SpansFrom(|s|, i + n, m);
    CutsCons(s, Span(i, i + n), SpansFrom(|s|, i + n, m), xs[0], []);
    assert [xs[0]] + [] == xs;
  }

  lemma NextCuts(s: string, i: nat, xs: seq<string>, pad: string, m: nat -> Option<nat>)
    requires IsMatcher(|s|, m) && |xs| > 1 && Laid(s, i, xs, pad, m)
    ensures Cuts(s, SpansFrom(|s|, i, m), xs)
    decreases |xs|, 0
  {
    var n := |xs[0]|;
    LaidCuts(s, i + n + 1, xs[1..], pad, m);
    StepOverSpace(|s|, i, n, m);
    CutsCons(s, Span(i, i + n), SpansFrom(|s|, i + n + 1, m), xs[0], xs[1..]);
    assert [xs[0]] + xs[1..] == xs;
  }

  /** The mentions of a space-joined list of mentions (with at most one space
      after it) are that list. */
  lemma JoinedMentions(xs: seq<string>, pad: string)
    requires pad == "" || pad == " "
    requires AllMentions(xs)
    ensures GetMentionsAsList(Join(xs) + pad) == xs
  {
    var s := Join(xs) + pad;
    assert s[0..] == s;
    var m := MentionMatcher(s);
    JoinedLaid(s, 0, xs, pad, m);
    LaidCuts(s, 0, xs, pad, m);
    var r := GetMentionsAsList(s);
    forall k | 0 <= k < |r| ensures r[k] == xs[k] {
    }
  }

  // ---------------------------------------------------------------------
  // get_mentions_as_string: " ".join(mentions)

  function Join(xs: seq<string>): string {
    if |xs| == 0 then "" else if |xs| == 1 then xs[0] else xs[0] + " " + Join(xs[1..])
  }

  function GetMentionsAsString(s: string): string {
    Join(GetMentionsAsList(s))
  }

  /** Index of the first space, or the length when there is none. */
  function FirstSpace(s: string): (k: nat)
    ensures k <= |s|
    ensures forall j :: 0 <= j < k ==> s[j] != ' '
    ensures k < |s| ==> s[k] == ' '
  {
    if s == [] || s[0] == ' ' then 0 else 1 + FirstSpace(s[1..])
  }

  /** Splitting on single spaces, the inverse of `Join` on space-free words. */
  function SplitSpaces(s: string): seq<string>
    decreases |s|
  {
    if s == [] then []
    else
      var k := FirstSpace(s);
      if k == |s| then [s] else [s[..k]] + SplitSpaces(s[k + 1..])
  }

  ghost predicate Words(xs: seq<string>) {
    forall k :: 0 <= k < |xs| ==> |xs[k]| > 0 && ' ' !in xs[k]
  }

  lemma FirstSpaceOf(x: string, y: string)
    requires ' ' !in x && (y == [] || y[0] == ' ')
    ensures FirstSpace(x + y) == |x|
  {
    if y != [] {
      assert (x + y)[|x|] == ' ';
    }
  }

  /** Round trip: splitting a joined list of words gives the list back. */
  lemma {:induction false} SplitJoin(xs: seq<string>)
    requires Words(xs)
    ensures SplitSpaces(Join(xs)) == xs
  {
    if |xs| == 1 {
      FirstSpaceOf(xs[0], []);
      assert xs[0] + [] == xs[0];
    } else if |xs| > 1 {
      var rest := Join(xs[1..]);
      var j := xs[0] + " " + rest;
      assert j == xs[0] + (" " + rest);
      FirstSpaceOf(xs[0], " " + rest);
      assert j[..|xs[0]|] == xs[0];
      assert j[|xs[0]| + 1..] == rest;
      SplitJoin(xs[1..]);
    }
  }

  lemma {:induction false} JoinEmpty(xs: seq<string>)
    requires Words(xs)
    ensures Join(xs) == "" <==> xs == []
  {
    if |xs| > 1 {
      assert |Join(xs)| >= |xs[0]|;
    }
  }

  lemma MentionIsWord(t: string)
    requires IsMention(t)
    ensures |t| > 0 && ' ' !in t
  {
    if IsBracketToken(t, "<@!") || IsBracketToken(t, "<@&") || IsBracketToken(t, "<#") || IsBracketToken(t, "<@") {
      forall k | 0 <= k < |t| ensures t[k] != ' ' {
        if k == 0 {
          assert t[0] == '<';
        } else if k == 1 {
          assert t[1] == '@' || t[1] == '#';
        } else if k == |t| - 1 {
        } else if IsBracketToken(t, "<@!") || IsBracketToken(t, "<@&") {
          if k == 2 {
            assert t[2] == '!' || t[2] == '&';
          } else {
            assert TimeParse.IsDigit(t[k]);
          }
        } else {
          assert TimeParse.IsDigit(t[k]);
        }
      }
    }
  }

  /** `get_mentions_as_string` joins the mentions with single spaces: it is
      empty exactly when there are none, and splitting it on spaces gives the
      list back. */
  lemma MentionsString(s: string)
    ensures GetMentionsAsString(s) == "" <==> GetMentionsAsList(s) == []
    ensures SplitSpaces(GetMentionsAsString(s)) == GetMentionsAsList(s)
  {
    var r := GetMentionsAsList(s);
    MentionsFindAll(s);
    forall k | 0 <= k < |r| ensures |r[k]| > 0 && ' ' !in r[k] {
      MentionIsWord(r[k]);
    }
    JoinEmpty(r);
    SplitJoin(r);
  }
}
