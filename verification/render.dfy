/**
 * The two artifacts of a run: the text rule set with one CIDR per line and
 * the metadata document that records the same list and its length.
 */
module Output {
  import opened Wrappers
  import opened Json
  import opened Normalizer

  /** The text artifact (lines 38-39): each prefix followed by a newline. */
  function Render(cidrs: seq<string>): (text: string)
    ensures text == [] <==> cidrs == []
    ensures cidrs != [] ==> text[|text| - 1] == '\n'
  {
    if |cidrs| == 0 then []
    else cidrs[0] + "\n" + Render(cidrs[1..])
  }

  /** `text.split("\n")`: the pieces between newlines; there is always at least one. */
  function Split(text: string): (pieces: seq<string>)
    ensures |pieces| >= 1
  {
    if |text| == 0 then [""]
    else
      var rest := Split(text[1..]);
      if text[0] == '\n' then [""] + rest
      else [[text[0]] + rest[0]] + rest[1..]
  }

  /** The lines of a newline-terminated text: the pieces without the one after the last newline. */
  function Lines(text: string): seq<string> {
    var pieces := Split(text);
    pieces[..|pieces| - 1]
  }

  /** The number of newline characters in a text. */
  function CountNewlines(text: string): nat {
    multiset(text)['\n']
  }

  /** No string of the list contains a newline. */
  predicate NoNewlines(cidrs: seq<string>) {
    forall i :: 0 <= i < |cidrs| ==> '\n' !in cidrs[i]
  }

  /** Splitting a newline-free line followed by a newline peels off that line. */
  lemma {:induction false} SplitLine(line: string, rest: string)
    requires '\n' !in line
    ensures Split(line + "\n" + rest) == [line] + Split(rest)
    decreases |line|
  {
    if |line| == 0 {
      assert line + "\n" + rest == ['\n'] + rest;
    } else {
      var t := line + "\n" + rest;
      assert t[1..] == line[1..] + "\n" + rest;
      SplitLine(line[1..], rest);
      assert [line[0]] + line[1..] == line;
    }
  }

  /**
   * The text round-trips: splitting it on newlines gives back the list
   * followed by one empty piece, so its lines are exactly the list.
   */
  lemma {:induction false} RenderRoundTrip(cidrs: seq<string>)
    requires NoNewlines(cidrs)
    ensures Split(Render(cidrs)) == cidrs + [""]
    ensures Lines(Render(cidrs)) == cidrs
    decreases |cidrs|
  {
    if |cidrs| > 0 {
      assert NoNewlines(cidrs[1..]) by {
        forall i | 0 <= i < |cidrs[1..]|
          ensures '\n' !in cidrs[1..][i]
        {
          assert cidrs[1..][i] == cidrs[i + 1];
        }
      }
      RenderRoundTrip(cidrs[1..]);
      assert '\n' !in cidrs[0];
      SplitLine(cidrs[0], Render(cidrs[1..]));
      assert cidrs == [cidrs[0]] + cidrs[1..];
    }
  }

  /** The text holds one newline per prefix. */
  lemma {:induction false} RenderNewlineCount(cidrs: seq<string>)
    requires NoNewlines(cidrs)
    ensures CountNewlines(Render(cidrs)) == |cidrs|
    decreases |cidrs|
  {
    if |cidrs| > 0 {
      assert NoNewlines(cidrs[1..]) by {
        forall i | 0 <= i < |cidrs[1..]|
          ensures '\n' !in cidrs[1..][i]
        {
          assert cidrs[1..][i] == cidrs[i + 1];
        }
      }
      RenderNewlineCount(cidrs[1..]);
      assert '\n' !in cidrs[0];
      assert multiset(cidrs[0])['\n'] == 0;
      assert multiset(Render(cidrs)) == multiset(cidrs[0]) + multiset("\n") + multiset(Render(cidrs[1..]));
    }
  }

  /* ---------------------------------------------------------------------- */
  /* Metadata document (lines 41-48)                                        */
  /* ---------------------------------------------------------------------- */

  const SourceName: string := "RIPEstat announced-prefixes"
  const SourceUrl: string := "https://stat.ripe.net/data/announced-prefixes/data.json?resource=AS6507"
  const Asn: string := "AS6507"

  /** The metadata document, its members in the order they are written. */
  datatype Metadata = Metadata(
    source: string,
    sourceUrl: string,
    asn: string,
    generatedAtUtc: string,
    prefixCount: nat,
    prefixes: seq<string>)

  /** The metadata of a run; the timestamp is the clock reading taken at write time. */
  function BuildMetadata(cidrs: seq<string>, generatedAtUtc: string): (m: Metadata)
    ensures m.prefixes == cidrs && m.generatedAtUtc == generatedAtUtc
    ensures m.prefixCount == |m.prefixes|
    ensures m.source == SourceName && m.sourceUrl == SourceUrl && m.asn == Asn
  {
    Metadata(SourceName, SourceUrl, Asn, generatedAtUtc, |cidrs|, cidrs)
  }

  /** The two artifacts a run writes. */
  datatype Artifacts = Artifacts(text: string, meta: Metadata)

  /**
   * A run after the fetch: normalise the document, then render the text
   * artifact and the metadata from the same list. A failed normalisation
   * produces neither.
   */
  function Run(doc: Json, parse: Parser, generatedAtUtc: string): (r: Result<Artifacts, Error>)
    ensures r.Success? <==> Normalize(doc, parse).Success?
    ensures r.Failure? ==> r.error == Normalize(doc, parse).error
    ensures r.Success? ==> r.value.meta.prefixes == Normalize(doc, parse).value
    ensures r.Success? ==> r.value.meta.prefixCount == |Normalize(doc, parse).value|
  {
    var cidrs :- Normalize(doc, parse);
    Success(Artifacts(Render(cidrs), BuildMetadata(cidrs, generatedAtUtc)))
  }

  /**
   * The two artifacts agree whenever no normalised prefix contains a line
   * break: the lines of the text are the prefixes of the metadata, and
   * `prefix_count` is both the number of lines and the number of newlines in
   * the text.
   */
  lemma RunArtifactsAgree(doc: Json, parse: Parser, generatedAtUtc: string)
    requires Run(doc, parse, generatedAtUtc).Success?
    requires NoNewlines(Normalize(doc, parse).value)
    ensures var a := Run(doc, parse, generatedAtUtc).value;
      && Lines(a.text) == a.meta.prefixes
      && a.meta.prefixCount == |Lines(a.text)|
      && a.meta.prefixCount == CountNewlines(a.text)
  {
    var cidrs := Normalize(doc, parse).value;
    RenderRoundTrip(cidrs);
    RenderNewlineCount(cidrs);
  }

  /**
   * A run that turns away a prefix spelling a line break, as a prefix it
   * cannot write on one line. Its two artifacts always agree.
   */
  function RunSingleLine(doc: Json, parse: Parser, generatedAtUtc: string): (r: Result<Artifacts, Error>)
    ensures r.Success? <==> Normalize(doc, parse).Success? && NoNewlines(Normalize(doc, parse).value)
    ensures r.Failure? && Normalize(doc, parse).Failure? ==> r.error == Normalize(doc, parse).error
    ensures r.Failure? && Normalize(doc, parse).Success? ==> r.error == BadPrefix
    ensures r.Success? ==> r == Run(doc, parse, generatedAtUtc)
    ensures r.Success? ==>
      && Lines(r.value.text) == r.value.meta.prefixes
      && r.value.meta.prefixCount == |Lines(r.value.text)|
      && r.value.meta.prefixCount == CountNewlines(r.value.text)
  {
    var run := Run(doc, parse, generatedAtUtc);
    if run.Failure? then run
    else if !NoNewlines(run.value.meta.prefixes) then Failure(BadPrefix)
    else
      RunArtifactsAgree(doc, parse, generatedAtUtc);
      run
  }
}
