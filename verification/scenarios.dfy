/** Worked example documents and what a run makes of them. */
module Scenarios {
  import opened Wrappers
  import opened Json
  import opened Network
  import opened Sorting
  import opened Normalizer
  import opened Output

  /** `{"prefix": text}` */
  function Record(text: string): Json {
    JObj([("prefix", JStr(text))])
  }

  /** `{"data": {"prefixes": records}}` */
  function Document(records: seq<Json>): Json {
    JObj([("data", JObj([("prefixes", JArr(records))]))])
  }

  /** The records of `{"data": {"prefixes": records}}` are `records`. */
  lemma DocumentRecords(records: seq<Json>)
    ensures Records(Document(records)) == Success(records)
  {
  }

  /** A record written as `{"prefix": text}` contributes `text`. */
  lemma RecordPrefix(text: string)
    ensures PrefixOf(Record(text)) == Success(Some(JStr(text)))
  {
    assert Record(text).fields[0].0 == "prefix";
  }

  /** One `{"prefix": text}` record per text. */
  function RecordsOf(texts: seq<string>): (r: seq<Json>)
    ensures |r| == |texts|
  {
    if |texts| == 0 then [] else [Record(texts[0])] + RecordsOf(texts[1..])
  }

  /** The texts as JSON strings. */
  function StringsOf(texts: seq<string>): (r: seq<Json>)
    ensures |r| == |texts|
  {
    if |texts| == 0 then [] else [JStr(texts[0])] + StringsOf(texts[1..])
  }

  /** The collected values of a list of such records are their texts, in order. */
  lemma {:induction false} RecordsPrefixValues(texts: seq<string>)
    ensures PrefixValues(RecordsOf(texts)) == Success(StringsOf(texts))
    decreases |texts|
  {
    if |texts| > 0 {
      RecordPrefix(texts[0]);
      RecordsPrefixValues(texts[1..]);
      assert RecordsOf(texts)[1..] == RecordsOf(texts[1..]);
    }
  }

  /** The records of the repeated-prefix document collect their three texts. */
  lemma RepeatedRecordValues(a: string, b: string)
    ensures PrefixValues(RecordsOf([a, b, a])) == Success([JStr(a), JStr(b), JStr(a)])
  {
    RecordsPrefixValues([a, b, a]);
    assert StringsOf([a]) == [JStr(a)] by {
      assert [a][1..] == [];
    }
    assert StringsOf([b, a]) == [JStr(b)] + StringsOf([a]) by {
      assert [b, a][1..] == [a];
    }
    assert StringsOf([a, b, a]) == [JStr(a)] + StringsOf([b, a]) by {
      assert [a, b, a][1..] == [b, a];
    }
    assert StringsOf([a, b, a]) == [JStr(a), JStr(b), JStr(a)];
  }

  /** Deduplication keeps one copy of the repeated value. */
  lemma DedupRepeat(x: Json, y: Json)
    requires x != y
    ensures Dedup([x, y, x]) == [y, x]
  {
    var values := [x, y, x];
    assert Dedup(values[2..]) == [x];
    assert values[1] !in values[2..];
    assert Dedup(values[1..]) == [y, x];
    assert values[0] in values[1..];
  }

  /** Sorting an IPv6 entry followed by an IPv4 entry swaps them. */
  lemma SortTwoFamilies(e4: Entry, e6: Entry)
    requires e4.key.version == 4 && e6.key.version == 6
    ensures SortEntries([e6, e4]) == [e4, e6]
  {
    assert SortEntries([e6, e4][1..]) == [e4];
    assert Insert(e6, [e4]) == [e4] + Insert(e6, [e4][1..]);
  }

  /** Two prefixes that both parse key to two entries, in order. */
  lemma EntriesOfTwo(parse: Parser, x: string, y: string)
    requires SortKeyOf(parse, x).Some? && SortKeyOf(parse, y).Some?
    ensures Entries(parse, [JStr(x), JStr(y)])
         == Success([Entry(x, SortKeyOf(parse, x).value), Entry(y, SortKeyOf(parse, y).value)])
  {
    var ex, ey := Entry(x, SortKeyOf(parse, x).value), Entry(y, SortKeyOf(parse, y).value);
    assert EntryOf(parse, JStr(x)) == Some(ex) && EntryOf(parse, JStr(y)) == Some(ey);
    assert Entries(parse, [JStr(y)]) == Success([ey]) by {
      assert [JStr(y)][0] == JStr(y);
      assert Entries(parse, [JStr(y)][1..]) == Success([]);
      assert [ey] + [] == [ey];
    }
    assert [JStr(x), JStr(y)][0] == JStr(x);
    assert [JStr(x), JStr(y)][1..] == [JStr(y)];
    assert [ex] + [ey] == [ex, ey];
  }

  /** The repeated-prefix document collects three values and keeps two. */
  lemma RepeatedDocumentValues(a: string, b: string)
    requires a != b
    ensures Records(Document(RecordsOf([a, b, a]))) == Success(RecordsOf([a, b, a]))
    ensures PrefixValues(RecordsOf([a, b, a])) == Success([JStr(a), JStr(b), JStr(a)])
    ensures Dedup([JStr(a), JStr(b), JStr(a)]) == [JStr(b), JStr(a)]
  {
    DocumentRecords(RecordsOf([a, b, a]));
    RepeatedRecordValues(a, b);
    DedupRepeat(JStr(a), JStr(b));
  }

  /** An IPv6 prefix kept before an IPv4 prefix comes out after it. */
  lemma TwoFamiliesSorted(parse: Parser, a: string, b: string)
    requires SortKeyOf(parse, a).Some? && SortKeyOf(parse, a).value.version == 4
    requires SortKeyOf(parse, b).Some? && SortKeyOf(parse, b).value.version == 6
    ensures Entries(parse, [JStr(b), JStr(a)])
         == Success([Entry(b, SortKeyOf(parse, b).value), Entry(a, SortKeyOf(parse, a).value)])
    ensures Texts(SortEntries([Entry(b, SortKeyOf(parse, b).value), Entry(a, SortKeyOf(parse, a).value)])) == [a, b]
  {
    EntriesOfTwo(parse, b, a);
    SortTwoFamilies(Entry(a, SortKeyOf(parse, a).value), Entry(b, SortKeyOf(parse, b).value));
  }

  /** An IPv4 prefix, an IPv6 prefix and the IPv4 one again give the IPv4 one, then the IPv6 one. */
  lemma RepeatAcrossFamilies(parse: Parser, a: string, b: string)
    requires SortKeyOf(parse, a).Some? && SortKeyOf(parse, a).value.version == 4
    requires SortKeyOf(parse, b).Some? && SortKeyOf(parse, b).value.version == 6
    ensures Normalize(Document(RecordsOf([a, b, a])), parse) == Success([a, b])
  {
    RepeatedDocumentValues(a, b);
    TwoFamiliesSorted(parse, a, b);
    NormalizeStages(Document(RecordsOf([a, b, a])), parse, RecordsOf([a, b, a]), [JStr(a), JStr(b), JStr(a)],
                    [Entry(b, SortKeyOf(parse, b).value), Entry(a, SortKeyOf(parse, a).value)]);
  }

  /** One IPv4 prefix, one IPv6 prefix, the IPv4 one repeated. */
  lemma RepeatedPrefixKeptOnce(parse: Parser, generatedAtUtc: string)
    requires parse("193.0.0.0/21") == Some(Literal(V4, 0xC100_0000, 21))
    requires parse("2001:67c:2e8::/48") == Some(Literal(V6, 0x2001_067c_02e8_0000_0000_0000_0000_0000, 48))
    ensures Normalize(Document(RecordsOf(["193.0.0.0/21", "2001:67c:2e8::/48", "193.0.0.0/21"])), parse)
         == Success(["193.0.0.0/21", "2001:67c:2e8::/48"])
    ensures Run(Document(RecordsOf(["193.0.0.0/21", "2001:67c:2e8::/48", "193.0.0.0/21"])), parse, generatedAtUtc)
              .value.meta.prefixCount == 2
  {
    AddressSpaceSizes();
    assert SortKeyOf(parse, "193.0.0.0/21").Some?;
    assert SortKeyOf(parse, "2001:67c:2e8::/48").Some?;
    RepeatAcrossFamilies(parse, "193.0.0.0/21", "2001:67c:2e8::/48");
  }

  /** A document with one record whose prefix parses normalises to that prefix alone. */
  lemma SinglePrefix(parse: Parser, a: string)
    requires SortKeyOf(parse, a).Some?
    ensures Normalize(Document(RecordsOf([a])), parse) == Success([a])
  {
    var records := RecordsOf([a]);
    var e := Entry(a, SortKeyOf(parse, a).value);
    DocumentRecords(records);
    RecordsPrefixValues([a]);
    assert StringsOf([a]) == [JStr(a)] by {
      assert [a][1..] == [];
    }
    assert Entries(parse, [JStr(a)]) == Success([e]) by {
      assert EntryOf(parse, [JStr(a)][0]) == Some(e);
      var keyed := Entries(parse, [JStr(a)]).value;
      assert |keyed| == 1 && keyed[0] == e;
      assert keyed == [e];
    }
    assert Dedup([JStr(a)]) == [JStr(a)] by {
      var once := Dedup([JStr(a)]);
      assert JStr(a) in once;
      assert |once| == 1 && once[0] == JStr(a);
    }
    NormalizeStages(Document(records), parse, records, [JStr(a)], [e]);
    assert SortEntries([e]) == [e];
    assert Texts([e]) == [a] by {
      assert |Texts([e])| == 1 && Texts([e])[0] == a;
    }
  }

  /** One prefix spelling a line break between two newline-free parts renders as those two lines. */
  lemma {:induction false} BrokenLine(a: string, b: string)
    requires '\n' !in a && '\n' !in b
    ensures Render([a + "\n" + b]) == Render([a, b])
    ensures Lines(Render([a + "\n" + b])) == [a, b]
    ensures CountNewlines(Render([a + "\n" + b])) == 2
  {
    var none: seq<string> := [];
    assert Render([a + "\n" + b]) == a + "\n" + b + "\n" by {
      assert [a + "\n" + b][1..] == none;
    }
    assert Render([a, b]) == a + "\n" + (b + "\n") by {
      assert [a, b][1..] == [b];
      assert [b][1..] == none;
    }
    assert NoNewlines([a, b]) by {
      assert [a, b][0] == a && [a, b][1] == b;
    }
    RenderRoundTrip([a, b]);
    RenderNewlineCount([a, b]);
  }

  /** The text of the one prefix `fe80::%` newline `/64` holds two lines and two newlines. */
  lemma ZoneIdText()
    ensures Lines(Render(["fe80::%\n/64"])) == ["fe80::%", "/64"]
    ensures CountNewlines(Render(["fe80::%\n/64"])) == 2
  {
    assert "fe80::%\n/64" == "fe80::%" + "\n" + "/64";
    assert '\n' !in "fe80::%" && '\n' !in "/64";
    BrokenLine("fe80::%", "/64");
  }

  /**
   * An IPv6 prefix whose zone id is a line break: `ip_network` accepts any
   * zone id after `%` other than one holding `%`, and the split on `/` comes
   * first, so `fe80::%` newline `/64` is a network, and the normaliser keeps it.
   */
  lemma ZoneIdKept(parse: Parser)
    requires parse("fe80::%\n/64") == Some(Literal(V6, 0xfe80_0000_0000_0000_0000_0000_0000_0000, 64))
    ensures Normalize(Document(RecordsOf(["fe80::%\n/64"])), parse) == Success(["fe80::%\n/64"])
  {
    assert SortKeyOf(parse, "fe80::%\n/64").Some? by {
      AddressSpaceSizes();
    }
    SinglePrefix(parse, "fe80::%\n/64");
  }

  /**
   * The run on the zone-id prefix counts one prefix, while its text holds
   * two lines and two newlines.
   */
  lemma ZoneIdNewlineSplitsLine(parse: Parser, generatedAtUtc: string)
    requires parse("fe80::%\n/64") == Some(Literal(V6, 0xfe80_0000_0000_0000_0000_0000_0000_0000, 64))
    ensures Run(Document(RecordsOf(["fe80::%\n/64"])), parse, generatedAtUtc).Success?
    ensures var a := Run(Document(RecordsOf(["fe80::%\n/64"])), parse, generatedAtUtc).value;
      && a.meta.prefixCount == 1
      && Lines(a.text) == ["fe80::%", "/64"]
      && CountNewlines(a.text) == 2
  {
    ZoneIdKept(parse);
    ZoneIdText();
  }

  /** The run that turns away a prefix spelling a line break refuses the zone-id prefix. */
  lemma ZoneIdTurnedAway(parse: Parser, generatedAtUtc: string)
    requires parse("fe80::%\n/64") == Some(Literal(V6, 0xfe80_0000_0000_0000_0000_0000_0000_0000, 64))
    ensures RunSingleLine(Document(RecordsOf(["fe80::%\n/64"])), parse, generatedAtUtc) == Failure(BadPrefix)
  {
    var t := "fe80::%\n/64";
    assert !NoNewlines([t]) by {
      assert t[7] == '\n';
      assert [t][0] == t;
    }
    ZoneIdKept(parse);
  }

  /** An empty prefix list renders as an empty text and a count of zero. */
  lemma EmptyListRendersEmpty(parse: Parser, generatedAtUtc: string)
    ensures Run(Document([]), parse, generatedAtUtc) ==
            Success(Artifacts("", BuildMetadata([], generatedAtUtc)))
  {
  }

  /** A document without `data` is treated as an empty prefix list. */
  lemma MissingDataIsEmpty(parse: Parser, generatedAtUtc: string)
    ensures Run(JObj([("queried_at", JStr("now"))]), parse, generatedAtUtc) ==
            Run(Document([]), parse, generatedAtUtc)
  {
  }

  /** A prefix the parser rejects aborts the whole normalisation. */
  lemma UnparsablePrefixAborts(parse: Parser)
    requires parse("not-a-cidr").None?
    requires parse("193.0.0.0/21") == Some(Literal(V4, 0xC100_0000, 21))
    ensures Normalize(Document(RecordsOf(["193.0.0.0/21", "not-a-cidr"])), parse) == Failure(BadPrefix)
  {
    var a, bad := "193.0.0.0/21", "not-a-cidr";
    var records := RecordsOf([a, bad]);
    var doc := Document(records);
    DocumentRecords(records);
    RecordsPrefixValues([a, bad]);
    NormalizeBadPrefix(doc, parse);
    assert records[1] == Record(bad);
    assert JStr(bad) in PrefixSet(records) by {
      RecordPrefix(bad);
    }
    assert EntryOf(parse, JStr(bad)).None?;
  }
}
