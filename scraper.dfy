/** parse_stories_bs of news_scaper.py after the CSS selection: the loop that turns the matched
    anchors into {url, title} records, both as written (it removes skipped anchors from the list
    it is iterating over) and as evidently intended (every anchor examined once). */
module Scraper {
  import opened Options

  /** A matched anchor: its visible text (get_text()) and its href attribute, if any */
  datatype Anchor = Anchor(text: string, href: Option<string>)

  /** A record parse_stories_bs emits: {"url": ..., "title": ...} */
  datatype Scraped = Scraped(url: string, title: string)

  /** The loop's skip test: no text, or no href, or an empty one */
  predicate Skipped(a: Anchor) {
    a.text == "" || a.href == None || a.href.value == ""
  }

  /** The record for an anchor that is not skipped: the href appended to the domain url */
  function Emit(domainUrl: string, a: Anchor): Scraped
    requires !Skipped(a)
  {
    Scraped(domainUrl + a.href.value, a.text)
  }

  /** list.remove(x) removes the first element equal to x */
  function IndexOf(s: seq<Anchor>, x: Anchor): (k: nat)
    requires x in s
    ensures k < |s| && s[k] == x
    ensures forall j :: 0 <= j < k ==> s[j] != x
  {
    if s[0] == x then 0 else 1 + IndexOf(s[1..], x)
  }

  /** What the loop as written emits: a skipped anchor is removed from the list under iteration,
      so the anchor right after it moves into the slot already visited and is never examined */
  function AsWritten(domainUrl: string, s: seq<Anchor>): seq<Scraped>
    decreases |s|
  {
    if s == [] then []
    else if Skipped(s[0]) then (if |s| == 1 then [] else AsWritten(domainUrl, s[2..]))
    else [Emit(domainUrl, s[0])] + AsWritten(domainUrl, s[1..])
  }

  /** What the loop as written has still to emit from position i of the list */
  function AsWrittenFrom(domainUrl: string, s: seq<Anchor>, i: nat): seq<Scraped> {
    if i < |s| then AsWritten(domainUrl, s[i..]) else []
  }

  /** Removing, at or before position i, a copy of the skipped anchor at i and moving on to
      i + 1 leaves what is still to be emitted as it was */
  lemma SkipStep(domainUrl: string, s: seq<Anchor>, i: nat, k: nat)
    requires i < |s| && Skipped(s[i]) && k <= i
    ensures AsWrittenFrom(domainUrl, s[..k] + s[k + 1..], i + 1) == AsWrittenFrom(domainUrl, s, i)
  {
    var t := s[..k] + s[k + 1..];
    if i + 2 < |s| {
      assert t[i + 1..] == s[i + 2..] == s[i..][2..];
    } else if i + 2 == |s| {
      var rest := s[i..];
      assert |rest| == 2 && Skipped(rest[0]) && rest[2..] == [];
      assert AsWritten(domainUrl, rest) == AsWritten(domainUrl, []) == [];
    }
  }

  lemma EmitStep(domainUrl: string, s: seq<Anchor>, i: nat)
    requires i < |s| && !Skipped(s[i])
    ensures AsWrittenFrom(domainUrl, s, i) == [Emit(domainUrl, s[i])] + AsWrittenFrom(domainUrl, s, i + 1)
  {
    assert s[i..][1..] == s[i + 1..];
  }

  /** parse_stories_bs as written: Python's list iterator visits index 0, 1, 2, ... of the
      current list until the index reaches its length, and the body removes from that list */
  method ParseStoriesBs(domainUrl: string, anchors: seq<Anchor>) returns (stories: seq<Scraped>)
    ensures stories == AsWritten(domainUrl, anchors)
  {
    var results := anchors;
    stories := [];
    var i := 0;
    assert anchors[0..] == anchors;
    while i < |results|
      invariant i <= |results| + 1
      invariant stories + AsWrittenFrom(domainUrl, results, i) == AsWritten(domainUrl, anchors)
      decreases |results| + 1 - i
    {
      var story := results[i];
      if Skipped(story) {
        var k := IndexOf(results, story);
        SkipStep(domainUrl, results, i, k);
        results := results[..k] + results[k + 1..];
        i := i + 1;
        continue;
      }
      EmitStep(domainUrl, results, i);
      stories := stories + [Emit(domainUrl, story)];
      i := i + 1;
    }
  }

  /** `r` is the record emitted for anchor `a` */
  predicate EmittedFor(domainUrl: string, r: Scraped, a: Anchor) {
    !Skipped(a) && r == Emit(domainUrl, a)
  }

  /** `out` is what emitting the anchors `s` at the strictly increasing positions `idx` gives:
      each record comes from an anchor that is not skipped, with that anchor's text as title and
      the domain url followed by its href as url, and records keep the order of their anchors */
  ghost predicate SelectedFrom(domainUrl: string, out: seq<Scraped>, s: seq<Anchor>, idx: seq<nat>) {
    && |idx| == |out|
    && (forall k :: 0 <= k < |idx| ==> idx[k] < |s| && EmittedFor(domainUrl, out[k], s[idx[k]]))
    && (forall k, l :: 0 <= k < l < |idx| ==> idx[k] < idx[l])
  }

  /** Every position moved on by `n` */
  function Shift(idx: seq<nat>, n: nat): (r: seq<nat>)
    ensures |r| == |idx| && forall k :: 0 <= k < |idx| ==> r[k] == idx[k] + n
  {
    seq(|idx|, k requires 0 <= k < |idx| => idx[k] + n)
  }

  /** Records selected from the anchors after the first `n` are selected from all of them at
      positions moved on by `n` */
  lemma SelectedFromDrop(domainUrl: string, out: seq<Scraped>, s: seq<Anchor>, idx: seq<nat>, n: nat)
    requires n <= |s| && SelectedFrom(domainUrl, out, s[n..], idx)
    ensures SelectedFrom(domainUrl, out, s, Shift(idx, n))
  {
    forall k | 0 <= k < |idx| ensures s[n..][idx[k]] == s[idx[k] + n] {
    }
  }

  /** A record for the first anchor goes in front of the records selected from the others */
  lemma SelectedFromCons(domainUrl: string, out: seq<Scraped>, s: seq<Anchor>, idx: seq<nat>)
    requires s != [] && !Skipped(s[0]) && SelectedFrom(domainUrl, out, s[1..], idx)
    ensures SelectedFrom(domainUrl, [Emit(domainUrl, s[0])] + out, s, [0] + Shift(idx, 1))
  {
    var out' := [Emit(domainUrl, s[0])] + out;
    var idx' := [0] + Shift(idx, 1);
    forall k | 0 <= k < |idx'| ensures idx'[k] < |s| && EmittedFor(domainUrl, out'[k], s[idx'[k]]) {
      if k > 0 {
        assert idx'[k] == idx[k - 1] + 1 && out'[k] == out[k - 1];
        assert s[1..][idx[k - 1]] == s[idx'[k]];
      }
    }
  }

  /** Every record the loop as written emits comes, in order, from an anchor with text and a
      non-empty href; there are at most as many records as anchors */
  lemma {:induction false} AsWrittenSources(domainUrl: string, s: seq<Anchor>) returns (idx: seq<nat>)
    ensures SelectedFrom(domainUrl, AsWritten(domainUrl, s), s, idx)
    ensures |AsWritten(domainUrl, s)| <= |s|
    decreases |s|
  {
    if s == [] {
      idx := [];
    } else if Skipped(s[0]) {
      if |s| == 1 {
        idx := [];
      } else {
        var rest := AsWrittenSources(domainUrl, s[2..]);
        SelectedFromDrop(domainUrl, AsWritten(domainUrl, s[2..]), s, rest, 2);
        idx := Shift(rest, 2);
      }
    } else {
      var rest := AsWrittenSources(domainUrl, s[1..]);
      SelectedFromCons(domainUrl, AsWritten(domainUrl, s[1..]), s, rest);
      idx := [0] + Shift(rest, 1);
    }
  }

  /** What the loop evidently means to emit: a record for every anchor that is not skipped */
  function ParseStories(domainUrl: string, s: seq<Anchor>): seq<Scraped> {
    if s == [] then []
    else (if Skipped(s[0]) then [] else [Emit(domainUrl, s[0])]) + ParseStories(domainUrl, s[1..])
  }

  /** The number of anchors that are not skipped */
  function Kept(s: seq<Anchor>): nat {
    if s == [] then 0 else (if Skipped(s[0]) then 0 else 1) + Kept(s[1..])
  }

  /** Every record the intended loop emits comes, in order, from an anchor that is not skipped */
  lemma {:induction false} ParseStoriesSources(domainUrl: string, s: seq<Anchor>) returns (idx: seq<nat>)
    ensures SelectedFrom(domainUrl, ParseStories(domainUrl, s), s, idx)
    decreases |s|
  {
    if s == [] {
      idx := [];
    } else {
      var rest := ParseStoriesSources(domainUrl, s[1..]);
      if Skipped(s[0]) {
        SelectedFromDrop(domainUrl, ParseStories(domainUrl, s[1..]), s, rest, 1);
        assert ParseStories(domainUrl, s) == ParseStories(domainUrl, s[1..]);
        idx := Shift(rest, 1);
      } else {
        SelectedFromCons(domainUrl, ParseStories(domainUrl, s[1..]), s, rest);
        idx := [0] + Shift(rest, 1);
      }
    }
  }

  /** The intended loop emits one record per anchor that is not skipped */
  lemma {:induction false} ParseStoriesCount(domainUrl: string, s: seq<Anchor>)
    ensures |ParseStories(domainUrl, s)| == Kept(s) <= |s|
  {
    if s != [] {
      ParseStoriesCount(domainUrl, s[1..]);
    }
  }

  /** The intended loop emits the record of every anchor that is not skipped */
  lemma {:induction false} ParseStoriesComplete(domainUrl: string, s: seq<Anchor>, j: nat)
    requires j < |s| && !Skipped(s[j])
    ensures Emit(domainUrl, s[j]) in ParseStories(domainUrl, s)
  {
    if j > 0 {
      assert s[1..][j - 1] == s[j];
      ParseStoriesComplete(domainUrl, s[1..], j - 1);
    }
  }

  lemma ParseStoriesStep(domainUrl: string, s: seq<Anchor>, i: nat)
    requires i < |s|
    ensures ParseStories(domainUrl, s[i..])
            == (if Skipped(s[i]) then [] else [Emit(domainUrl, s[i])]) + ParseStories(domainUrl, s[i + 1..])
  {
    assert s[i..][1..] == s[i + 1..];
  }

  /** The loop without the removal: every anchor is examined once */
  method ParseStoriesIntended(domainUrl: string, anchors: seq<Anchor>) returns (stories: seq<Scraped>)
    ensures stories == ParseStories(domainUrl, anchors)
  {
    stories := [];
    assert anchors[0..] == anchors;
    for i := 0 to |anchors|
      invariant stories + ParseStories(domainUrl, anchors[i..]) == ParseStories(domainUrl, anchors)
    {
      ParseStoriesStep(domainUrl, anchors, i);
      ghost var rest := ParseStories(domainUrl, anchors[i + 1..]);
      if !Skipped(anchors[i]) {
        var record := Emit(domainUrl, anchors[i]);
        assert stories + ([record] + rest) == (stories + [record]) + rest;
        stories := stories + [record];
      } else {
        assert [] + rest == rest;
      }
    }
    assert anchors[|anchors|..] == [];
  }

  /** As written and as intended agree when no anchor but perhaps the last is skipped */
  lemma {:induction false} AsWrittenAgreesWithoutSkips(domainUrl: string, s: seq<Anchor>)
    requires forall j :: 0 <= j < |s| - 1 ==> !Skipped(s[j])
    ensures AsWritten(domainUrl, s) == ParseStories(domainUrl, s)
    decreases |s|
  {
    if |s| > 1 {
      assert forall j :: 0 <= j < |s[1..]| - 1 ==> s[1..][j] == s[j + 1];
      AsWrittenAgreesWithoutSkips(domainUrl, s[1..]);
    } else if |s| == 1 {
      assert s[1..] == [];
    }
  }

  /** Two matched anchors, the first without text: the loop as written removes the first and
      never looks at the second, which the intended loop emits */
  lemma RemovalHidesNextAnchor(domainUrl: string)
    ensures var s := [Anchor("", Some("/news")), Anchor("Headline", Some("/news/1"))];
            AsWritten(domainUrl, s) == [] &&
            ParseStories(domainUrl, s) == [Scraped(domainUrl + "/news/1", "Headline")]
  {
    var s := [Anchor("", Some("/news")), Anchor("Headline", Some("/news/1"))];
    assert s[2..] == [];
    assert s[1..] == [Anchor("Headline", Some("/news/1"))];
    assert s[1..][1..] == [];
    assert ParseStories(domainUrl, s[1..]) == [Emit(domainUrl, s[1])];
  }
}
