/** The video-identifier normaliser of app.py (`extract_video_id`): a raw
    identifier is kept, otherwise three URL patterns are searched for in order and
    the eleven identifier characters after the first match are returned, and an
    input that matches nothing is returned unchanged.

    The regular expressions are replaced by explicit predicates. `[\w-]` is taken
    as the ASCII letters, the digits, `_` and `-`. */
module VideoId {
  import opened Wrappers

  /** Length of a canonical video identifier: the `{11}` of every pattern. */
  const IdLength: nat := 11

  /** The literal text in front of the identifier, one per URL shape. */
  const WatchPrefix: string := "youtube.com/watch?v="
  const ShortPrefix: string := "youtu.be/"
  const EmbedPrefix: string := "youtube.com/embed/"
  const LegacyPrefix: string := "youtube.com/v/"

  /** The three patterns in the order they are tried. A pattern is a list of
      alternatives for the literal in front of the capture, tried in order at each
      position (the first pattern is the alternation `watch?v=` | short link). */
  const Patterns: seq<seq<string>> := [[WatchPrefix, ShortPrefix], [EmbedPrefix], [LegacyPrefix]]

  /** The four literals of all patterns. */
  const AllPrefixes: seq<string> := [WatchPrefix, ShortPrefix, EmbedPrefix, LegacyPrefix]

  /** `[\w-]`, restricted to ASCII. */
  predicate IsIdChar(c: char) {
    'a' <= c <= 'z' || 'A' <= c <= 'Z' || '0' <= c <= '9' || c == '_' || c == '-'
  }

  /** Eleven identifier characters start at index `i` of `s`. */
  predicate IdRunAt(s: string, i: nat) {
    i + IdLength <= |s| && forall k :: i <= k < i + IdLength ==> IsIdChar(s[k])
  }

  /** A canonical identifier: exactly eleven identifier characters. */
  predicate IsIdentifier(s: string) {
    |s| == IdLength && IdRunAt(s, 0)
  }

  /** `re.match(r'^[\w-]{11}$', s)`. Python's `$` also matches just before a
      final newline, so eleven identifier characters followed by one "\n" pass. */
  predicate IsRawId(s: string)
    ensures IsRawId(s) <==> IsIdentifier(s) || (|s| == IdLength + 1 && IsIdentifier(s[..IdLength]) && s[IdLength] == '\n')
  {
    IdRunAt(s, 0) && (|s| == IdLength || (|s| == IdLength + 1 && s[IdLength] == '\n'))
  }

  /** The literal `lit` occurs in `s` at position `p`. */
  predicate LiteralAt(s: string, p: nat, lit: string) {
    p + |lit| <= |s| && s[p..p + |lit|] == lit
  }

  /** The alternative `lit` followed by eleven identifier characters matches at `p`. */
  predicate AltMatchesAt(s: string, p: nat, lit: string) {
    LiteralAt(s, p, lit) && IdRunAt(s, p + |lit|)
  }

  /** Some alternative of `pattern` matches at position `p`. */
  ghost predicate PatternMatchesAt(s: string, p: nat, pattern: seq<string>) {
    exists j :: 0 <= j < |pattern| && AltMatchesAt(s, p, pattern[j])
  }

  /** No pattern matches anywhere in `s`. */
  ghost predicate NothingMatches(s: string) {
    forall i, p :: 0 <= i < |Patterns| && 0 <= p <= |s| ==> !PatternMatchesAt(s, p, Patterns[i])
  }

  /** `c` is what the capture group holds for a match of `pattern` that begins at
      `p`: the eleven characters after the first alternative that matches there. */
  ghost predicate IsCaptureAt(s: string, p: nat, pattern: seq<string>, c: string) {
    exists j :: 0 <= j < |pattern| && AltMatchesAt(s, p, pattern[j])
      && (forall k :: 0 <= k < j ==> !AltMatchesAt(s, p, pattern[k]))
      && c == s[p + |pattern[j]|..p + |pattern[j]| + IdLength]
  }

  /** `c` is eleven identifier characters of `s` that immediately follow one of the
      four URL literals. */
  ghost predicate CapturedAfterPrefix(s: string, c: string) {
    exists q, j :: 0 <= j < |AllPrefixes| && |AllPrefixes[j]| <= q && IdRunAt(s, q)
      && s[q - |AllPrefixes[j]|..q] == AllPrefixes[j] && c == s[q..q + IdLength]
  }

  /** The alternatives of `pattern` from index `j` on, tried in order at `p`: the
      index of the first that matches. */
  function FirstAlt(s: string, p: nat, pattern: seq<string>, j: nat): (r: Option<nat>)
    requires j <= |pattern|
    decreases |pattern| - j
    ensures r.Some? ==> j <= r.value < |pattern| && AltMatchesAt(s, p, pattern[r.value])
    ensures r.Some? ==> forall k :: j <= k < r.value ==> !AltMatchesAt(s, p, pattern[k])
    ensures r.None? ==> forall k :: j <= k < |pattern| ==> !AltMatchesAt(s, p, pattern[k])
  {
    if j == |pattern| then None
    else if AltMatchesAt(s, p, pattern[j]) then Some(j)
    else FirstAlt(s, p, pattern, j + 1)
  }

  /** `re.search` position scan: the leftmost position at or after `from` where
      `pattern` matches. */
  function Leftmost(s: string, pattern: seq<string>, from: nat): (r: Option<nat>)
    requires from <= |s|
    decreases |s| - from
    ensures r.Some? ==> from <= r.value <= |s| && PatternMatchesAt(s, r.value, pattern)
    ensures r.Some? ==> forall q :: from <= q < r.value ==> !PatternMatchesAt(s, q, pattern)
    ensures r.None? ==> forall q :: from <= q <= |s| ==> !PatternMatchesAt(s, q, pattern)
  {
    if FirstAlt(s, from, pattern, 0).Some? then Some(from)
    else if from == |s| then None
    else Leftmost(s, pattern, from + 1)
  }

  /** `re.search(pattern, s)` followed by `match.group(1)`. */
  function Search(s: string, pattern: seq<string>): (r: Option<string>)
    ensures r.None? <==> forall p :: 0 <= p <= |s| ==> !PatternMatchesAt(s, p, pattern)
    ensures r.Some? ==> IsIdentifier(r.value)
  {
    match Leftmost(s, pattern, 0)
    case None => None
    case Some(p) =>
      var j := FirstAlt(s, p, pattern, 0).value;
      var i := p + |pattern[j]|;
      assert AltMatchesAt(s, p, pattern[j]);
      Some(s[i..i + IdLength])
  }

  /** What `re.search` finds is captured at the leftmost match, after the first
      alternative that matches there. */
  lemma SearchCapture(s: string, pattern: seq<string>)
    requires Search(s, pattern).Some?
    ensures exists p :: 0 <= p <= |s| && PatternMatchesAt(s, p, pattern)
              && (forall q :: 0 <= q < p ==> !PatternMatchesAt(s, q, pattern))
              && IsCaptureAt(s, p, pattern, Search(s, pattern).value)
  {
    var p := Leftmost(s, pattern, 0).value;
    var j := FirstAlt(s, p, pattern, 0).value;
    assert IsCaptureAt(s, p, pattern, Search(s, pattern).value);
  }

  /** The patterns from index `i` on, tried in order: the index of the first one
      that is found somewhere in `s`. */
  function FirstPattern(s: string, patterns: seq<seq<string>>, i: nat): (r: Option<nat>)
    requires i <= |patterns|
    decreases |patterns| - i
    ensures r.Some? ==> i <= r.value < |patterns| && Search(s, patterns[r.value]).Some?
    ensures r.Some? ==> forall k :: i <= k < r.value ==> Search(s, patterns[k]).None?
    ensures r.None? ==> forall k :: i <= k < |patterns| ==> Search(s, patterns[k]).None?
  {
    if i == |patterns| then None
    else if Search(s, patterns[i]).Some? then Some(i)
    else FirstPattern(s, patterns, i + 1)
  }

  /** `extract_video_id`: a raw identifier is kept; otherwise the capture of the
      first pattern found; otherwise the input itself. */
  function ExtractVideoId(s: string): (r: string)
    ensures r == s || IsIdentifier(r)
    ensures |r| == 0 <==> |s| == 0
    ensures IsIdentifier(s) ==> r == s
  {
    if IsRawId(s) then s
    else match FirstPattern(s, Patterns, 0)
      case Some(i) => Search(s, Patterns[i]).value
      case None => s
  }

  /** Because `$` also matches before a final newline, an identifier followed by
      one "\n" passes the raw-identifier test and is returned with its newline. */
  lemma RawIdKeepsNewline(id: string)
    requires IsIdentifier(id)
    ensures IsRawId(id + "\n") && !IsIdentifier(id + "\n")
    ensures ExtractVideoId(id + "\n") == id + "\n"
  {
    var s := id + "\n";
    forall k | 0 <= k < IdLength ensures IsIdChar(s[k]) {
      assert s[k] == id[k];
    }
  }

  /** Every literal of every pattern is non-empty and begins with 'y'. */
  lemma PatternLiterals()
    ensures forall i, j :: 0 <= i < |Patterns| && 0 <= j < |Patterns[i]| ==>
      |Patterns[i][j]| > 0 && Patterns[i][j][0] == 'y'
  {
    assert Patterns[0] == [WatchPrefix, ShortPrefix];
    assert Patterns[1] == [EmbedPrefix] && Patterns[2] == [LegacyPrefix];
  }

  /** The capture of a match is determined by where the match begins. */
  lemma CaptureUnique(s: string, p: nat, pattern: seq<string>, c1: string, c2: string)
    requires IsCaptureAt(s, p, pattern, c1) && IsCaptureAt(s, p, pattern, c2)
    ensures c1 == c2
  {
    var j1 :| 0 <= j1 < |pattern| && AltMatchesAt(s, p, pattern[j1])
      && (forall k :: 0 <= k < j1 ==> !AltMatchesAt(s, p, pattern[k]))
      && c1 == s[p + |pattern[j1]|..p + |pattern[j1]| + IdLength];
    var j2 :| 0 <= j2 < |pattern| && AltMatchesAt(s, p, pattern[j2])
      && (forall k :: 0 <= k < j2 ==> !AltMatchesAt(s, p, pattern[k]))
      && c2 == s[p + |pattern[j2]|..p + |pattern[j2]| + IdLength];
    assert j1 == j2;
  }

  /** The input comes back unchanged exactly when it is a raw identifier or no
      pattern is found anywhere in it (the `return url_or_id` fallback). */
  lemma ExtractKeepsInput(s: string)
    ensures ExtractVideoId(s) == s <==> IsRawId(s) || NothingMatches(s)
  {
    if !IsRawId(s) {
      match FirstPattern(s, Patterns, 0)
      case Some(i) =>
        var c := Search(s, Patterns[i]).value;
        SearchCapture(s, Patterns[i]);
        var p :| 0 <= p <= |s| && PatternMatchesAt(s, p, Patterns[i])
          && (forall q :: 0 <= q < p ==> !PatternMatchesAt(s, q, Patterns[i]))
          && IsCaptureAt(s, p, Patterns[i], c);
        var j :| 0 <= j < |Patterns[i]| && AltMatchesAt(s, p, Patterns[i][j]);
        PatternLiterals();
        assert |s| > IdLength == |c|;
      case None =>
        forall k, p | 0 <= k < |Patterns| && 0 <= p <= |s|
          ensures !PatternMatchesAt(s, p, Patterns[k])
        {
          assert Search(s, Patterns[k]).None?;
        }
    }
  }

  /** Patterns are tried in list order: the first pattern found anywhere in a
      non-raw input decides the result, whatever later patterns would find. */
  lemma ExtractPriority(s: string, i: nat)
    requires !IsRawId(s) && i < |Patterns|
    requires forall k :: 0 <= k < i ==> Search(s, Patterns[k]).None?
    requires Search(s, Patterns[i]).Some?
    ensures ExtractVideoId(s) == Search(s, Patterns[i]).value
  {
    var r := FirstPattern(s, Patterns, 0);
    assert r.Some? && r.value == i;
  }

  /** A non-raw input whose earlier patterns are absent, and whose pattern `i`
      first matches at `p` with capture `c`, normalises to `c`. */
  lemma ExtractFirstFound(s: string, i: nat, p: nat, c: string)
    requires !IsRawId(s) && i < |Patterns| && p <= |s|
    requires forall k, q :: 0 <= k < i && 0 <= q <= |s| ==> !PatternMatchesAt(s, q, Patterns[k])
    requires forall q :: 0 <= q < p ==> !PatternMatchesAt(s, q, Patterns[i])
    requires PatternMatchesAt(s, p, Patterns[i]) && IsCaptureAt(s, p, Patterns[i], c)
    ensures ExtractVideoId(s) == c
  {
    forall k | 0 <= k < i ensures Search(s, Patterns[k]).None? {
      assert forall q :: 0 <= q <= |s| ==> !PatternMatchesAt(s, q, Patterns[k]);
    }
    var found := Search(s, Patterns[i]);
    assert found.Some?;
    SearchCapture(s, Patterns[i]);
    var p' :| 0 <= p' <= |s| && PatternMatchesAt(s, p', Patterns[i])
      && (forall q :: 0 <= q < p' ==> !PatternMatchesAt(s, q, Patterns[i]))
      && IsCaptureAt(s, p', Patterns[i], found.value);
    assert p' == p;
    CaptureUnique(s, p, Patterns[i], c, found.value);
    ExtractPriority(s, i);
  }

  /** Whatever is extracted is eleven identifier characters of the input that
      immediately follow one of the four URL literals. */
  lemma {:induction false} ExtractCapturedAfterPrefix(s: string)
    requires ExtractVideoId(s) != s
    ensures IsIdentifier(ExtractVideoId(s))
    ensures CapturedAfterPrefix(s, ExtractVideoId(s))
  {
    var i := FirstPattern(s, Patterns, 0).value;
    var p := Leftmost(s, Patterns[i], 0).value;
    var j := FirstAlt(s, p, Patterns[i], 0).value;
    var lit := Patterns[i][j];
    var q := p + |lit|;
    assert ExtractVideoId(s) == s[q..q + IdLength];
    var a := LiteralIndex(i, j);
    assert s[q - |lit|..q] == lit;
  }

  /** Where the literal `Patterns[i][j]` stands in `AllPrefixes`. */
  lemma LiteralIndex(i: nat, j: nat) returns (a: nat)
    requires i < |Patterns| && j < |Patterns[i]|
    ensures a < |AllPrefixes| && AllPrefixes[a] == Patterns[i][j]
  {
    assert Patterns[0] == [WatchPrefix, ShortPrefix];
    assert Patterns[1] == [EmbedPrefix] && Patterns[2] == [LegacyPrefix];
    a := if i == 0 then j else i + 1;
  }

  /** Normalising twice is normalising once: an extracted identifier is itself a
      raw identifier, and an input returned unchanged is returned unchanged again. */
  lemma ExtractIdempotent(s: string)
    ensures ExtractVideoId(ExtractVideoId(s)) == ExtractVideoId(s)
  {
  }

  /** No pattern can match at a position that does not hold a 'y'. */
  lemma NoMatchWithoutY(s: string, q: nat, i: nat)
    requires i < |Patterns|
    requires q < |s| ==> s[q] != 'y'
    ensures !PatternMatchesAt(s, q, Patterns[i])
  {
    PatternLiterals();
    forall j | 0 <= j < |Patterns[i]| ensures !AltMatchesAt(s, q, Patterns[i][j]) {
    }
  }

  /** The identifier after `literal` at position |host| is the capture there. */
  lemma MatchAfterHost(host: string, literal: string, id: string, tail: string, i: nat, j: nat)
    requires IsIdentifier(id) && i < |Patterns| && j < |Patterns[i]| && Patterns[i][j] == literal
    requires forall k :: 0 <= k < j ==> !AltMatchesAt(host + literal + id + tail, |host|, Patterns[i][k])
    ensures PatternMatchesAt(host + literal + id + tail, |host|, Patterns[i])
    ensures IsCaptureAt(host + literal + id + tail, |host|, Patterns[i], id)
  {
    var s := host + literal + id + tail;
    var h := |host|;
    assert s[h..h + |literal|] == literal;
    assert s[h + |literal|..h + |literal| + IdLength] == id;
    forall k | h + |literal| <= k < h + |literal| + IdLength ensures IsIdChar(s[k]) {
      assert s[k] == id[k - h - |literal|];
    }
    assert AltMatchesAt(s, h, Patterns[i][j]);
  }

  /** No pattern matches inside a host that holds no 'y'. */
  lemma NoMatchInHost(s: string, host: string, i: nat)
    requires i < |Patterns| && |host| <= |s| && s[..|host|] == host && 'y' !in host
    ensures forall q :: 0 <= q < |host| ==> !PatternMatchesAt(s, q, Patterns[i])
  {
    forall q | 0 <= q < |host| ensures !PatternMatchesAt(s, q, Patterns[i]) {
      assert s[q] == host[q];
      NoMatchWithoutY(s, q, i);
    }
  }

  /** The watch-URL shape: the identifier right after `youtube.com/watch?v=` is
      extracted, whatever follows it (the capture is not anchored at its end). */
  lemma ExtractWatchUrl(host: string, id: string, tail: string)
    requires 'y' !in host && IsIdentifier(id)
    ensures ExtractVideoId(host + WatchPrefix + id + tail) == id
  {
    var s := host + WatchPrefix + id + tail;
    MatchAfterHost(host, WatchPrefix, id, tail, 0, 0);
    assert s[..|host|] == host;
    NoMatchInHost(s, host, 0);
    ExtractFirstFound(s, 0, |host|, id);
  }

  /** The short-link shape: the identifier right after `youtu.be/` is extracted,
      whatever follows it. */
  lemma ExtractShortUrl(host: string, id: string, tail: string)
    requires 'y' !in host && IsIdentifier(id)
    ensures ExtractVideoId(host + ShortPrefix + id + tail) == id
  {
    var s := host + ShortPrefix + id + tail;
    var h := |host|;
    assert s[h + 5] == '.';
    assert !AltMatchesAt(s, h, Patterns[0][0]);
    MatchAfterHost(host, ShortPrefix, id, tail, 0, 1);
    assert s[..h] == host;
    NoMatchInHost(s, host, 0);
    ExtractFirstFound(s, 0, h, id);
  }

  /** In `host + base + id + tail`, the only '.' after the host is the one of
      `youtube.com` inside `base`. */
  lemma DomainDotOnly(host: string, base: string, id: string, tail: string, k: nat)
    requires base == EmbedPrefix || base == LegacyPrefix
    requires IsIdentifier(id) && '.' !in tail
    requires |host| <= k < |host + base + id + tail| && (host + base + id + tail)[k] == '.'
    ensures k == |host| + 7
  {
    var s := host + base + id + tail;
    var h := |host|;
    if k < h + |base| {
      assert s[k] == base[k - h];
    }
  }

  /** A literal is not found where one of its characters is missing. */
  lemma Mismatch(s: string, q: nat, lit: string, j: nat)
    requires j < |lit| && q + j < |s| && s[q + j] != lit[j]
    ensures !LiteralAt(s, q, lit)
  {
    if q + |lit| <= |s| {
      assert s[q..q + |lit|][j] == s[q + j];
    }
  }

  /** An earlier-tried literal never occurs in an embed or legacy URL whose tail
      holds no further domain. */
  lemma NoEarlierLiteral(host: string, base: string, id: string, tail: string, lit: string, q: nat)
    requires base == EmbedPrefix || base == LegacyPrefix
    requires lit == WatchPrefix || lit == ShortPrefix || (lit == EmbedPrefix && base == LegacyPrefix)
    requires 'y' !in host && IsIdentifier(id) && '.' !in tail
    ensures !LiteralAt(host + base + id + tail, q, lit)
  {
    var s := host + base + id + tail;
    var h := |host|;
    var d := if lit == ShortPrefix then 5 else 7;
    if q + |lit| <= |s| {
      if q < h {
        assert s[q] == host[q];
        Mismatch(s, q, lit, 0);
      } else if s[q + d] != '.' {
        Mismatch(s, q, lit, d);
      } else {
        DomainDotOnly(host, base, id, tail, q + d);
        if lit == ShortPrefix {
          assert s[q] == base[2];
          Mismatch(s, q, lit, 0);
        } else {
          assert s[q + 12] == base[12];
          Mismatch(s, q, lit, 12);
        }
      }
    }
  }

  /** The embed shape: the identifier right after `youtube.com/embed/` is extracted,
      provided nothing after it holds a '.' (so no URL of an earlier-tried shape). */
  lemma ExtractEmbedUrl(host: string, id: string, tail: string)
    requires 'y' !in host && IsIdentifier(id) && '.' !in tail
    ensures ExtractVideoId(host + EmbedPrefix + id + tail) == id
  {
    var s := host + EmbedPrefix + id + tail;
    forall q | 0 <= q <= |s| ensures !PatternMatchesAt(s, q, Patterns[0]) {
      NoEarlierLiteral(host, EmbedPrefix, id, tail, WatchPrefix, q);
      NoEarlierLiteral(host, EmbedPrefix, id, tail, ShortPrefix, q);
      assert Patterns[0] == [WatchPrefix, ShortPrefix];
    }
    MatchAfterHost(host, EmbedPrefix, id, tail, 1, 0);
    assert s[..|host|] == host;
    NoMatchInHost(s, host, 1);
    ExtractFirstFound(s, 1, |host|, id);
  }

  /** The legacy shape: the identifier right after `youtube.com/v/` is extracted,
      provided nothing after it holds a '.'. */
  lemma ExtractLegacyUrl(host: string, id: string, tail: string)
    requires 'y' !in host && IsIdentifier(id) && '.' !in tail
    ensures ExtractVideoId(host + LegacyPrefix + id + tail) == id
  {
    var s := host + LegacyPrefix + id + tail;
    forall k, q | 0 <= k < 2 && 0 <= q <= |s| ensures !PatternMatchesAt(s, q, Patterns[k]) {
      NoEarlierLiteral(host, LegacyPrefix, id, tail, WatchPrefix, q);
      NoEarlierLiteral(host, LegacyPrefix, id, tail, ShortPrefix, q);
      NoEarlierLiteral(host, LegacyPrefix, id, tail, EmbedPrefix, q);
      assert Patterns[0] == [WatchPrefix, ShortPrefix] && Patterns[1] == [EmbedPrefix];
    }
    MatchAfterHost(host, LegacyPrefix, id, tail, 2, 0);
    assert s[..|host|] == host;
    NoMatchInHost(s, host, 2);
    ExtractFirstFound(s, 2, |host|, id);
  }

  /** A watch URL without its `v=` parameter: `youtube.com/watch?`. */
  const WatchPath: string := "youtube.com/watch?"

  /** No literal occurs at the start of `youtube.com/watch?` followed by a query
      that does not begin with `v`. */
  lemma WatchQueryStart(query: string, i: nat)
    requires i < |Patterns| && (|query| > 0 ==> query[0] != 'v')
    ensures !PatternMatchesAt(WatchPath + query, 0, Patterns[i])
  {
    var s := WatchPath + query;
    assert s[5] == 'b' && s[12] == 'w';
    if |s| > 18 {
      assert s[18] == query[0];
    }
    assert Patterns[0] == [WatchPrefix, ShortPrefix];
    assert Patterns[1] == [EmbedPrefix] && Patterns[2] == [LegacyPrefix];
    forall j | 0 <= j < |Patterns[i]| ensures !LiteralAt(s, 0, Patterns[i][j]) {
      var lit := Patterns[i][j];
      if |lit| <= |s| {
        assert s[..|lit|][5] == s[5];
        if |lit| > 12 {
          assert s[..|lit|][12] == s[12];
        }
        if |lit| > 18 {
          assert s[..|lit|][18] == s[18];
        }
      }
    }
  }

  /** No pattern occurs in `youtube.com/watch?` followed by a query without 'y'
      that does not begin with `v`. */
  lemma WatchQueryNothingMatches(query: string)
    requires 'y' !in query && (|query| > 0 ==> query[0] != 'v')
    ensures NothingMatches(WatchPath + query)
  {
    var s := WatchPath + query;
    forall i, q | 0 <= i < |Patterns| && 0 <= q <= |s| ensures !PatternMatchesAt(s, q, Patterns[i]) {
      if q == 0 {
        WatchQueryStart(query, i);
      } else {
        if q < |s| {
          if q < |WatchPath| {
            assert s[q] == WatchPath[q];
          } else {
            assert s[q] == query[q - |WatchPath|];
          }
        }
        NoMatchWithoutY(s, q, i);
      }
    }
  }

  /** `watch?v=` must follow `youtube.com/` directly: a watch URL whose first
      query parameter is not `v` is not recognised and comes back unchanged. */
  lemma ExtractWatchNeedsVFirst(query: string)
    requires 'y' !in query && (|query| > 0 ==> query[0] != 'v')
    ensures ExtractVideoId(WatchPath + query) == WatchPath + query
  {
    WatchQueryNothingMatches(query);
    ExtractKeepsInput(WatchPath + query);
  }
}
