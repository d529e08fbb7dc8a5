/**
 * The normaliser of scripts/fetch_as6507_prefixes.py: from the decoded
 * announced-prefixes document to the duplicate-free list of CIDR strings
 * ordered by `sort_key`.
 */
module Normalizer {
  import opened Wrappers
  import opened Json
  import opened Network
  import opened Sorting

  /**
   * Why a normalisation aborts. `Malformed` stands for the AttributeError or
   * TypeError Python raises while walking a document of an unexpected shape;
   * `BadPrefix` for the ValueError `ip_network` raises on a kept value.
   */
  datatype Error = Malformed | BadPrefix

  /**
   * The textual CIDR parser: the family, address and prefix length a string
   * spells, or None when the text is not an address of either family.
   */
  type Parser = string -> Option<Literal>

  /* ---------------------------------------------------------------------- */
  /* Extraction: data.get("data", {}).get("prefixes", [])                    */
  /* ---------------------------------------------------------------------- */

  /** `for p in v`: a list yields its items, a string its characters, an object its keys. */
  function Iterate(v: Json): (r: Result<seq<Json>, Error>)
    ensures r.Failure? <==> !(v.JArr? || v.JStr? || v.JObj?)
    ensures v.JArr? ==> r == Success(v.items)
    ensures v.JStr? ==> r.Success? && |r.value| == |v.s|
    ensures v.JStr? ==> forall i :: 0 <= i < |v.s| ==> r.value[i] == JStr([v.s[i]])
    ensures v.JObj? ==> r == Success(KeyStrings(v.fields))
  {
    match v
    case JArr(items) => Success(items)
    case JStr(s) => Success(seq(|s|, i requires 0 <= i < |s| => JStr([s[i]])))
    case JObj(fields) => Success(KeyStrings(fields))
    case _ => Failure(Malformed)
  }

  /**
   * The record list of line 31. An absent key takes its default; `.get` on
   * anything but an object is an AttributeError, and so is iterating a
   * `prefixes` that is not a list, a string or an object.
   */
  function Records(doc: Json): (r: Result<seq<Json>, Error>)
    ensures r.Failure? ==> r.error == Malformed
    ensures PrefixesAbsent(doc) ==> r == Success([])
    ensures r.Failure? <==>
      || !doc.JObj?
      || (HasKey(doc.fields, "data") &&
          var data := Lookup(doc.fields, "data").value;
          || !data.JObj?
          || (HasKey(data.fields, "prefixes") && Iterate(Lookup(data.fields, "prefixes").value).Failure?))
    ensures doc.JObj? && HasKey(doc.fields, "data") && Lookup(doc.fields, "data").value.JObj? &&
            HasKey(Lookup(doc.fields, "data").value.fields, "prefixes") ==>
              r == Iterate(Lookup(Lookup(doc.fields, "data").value.fields, "prefixes").value)
  {
    if !doc.JObj? then Failure(Malformed)
    else
      match Lookup(doc.fields, "data")
      case None => Success([])
      case Some(data) =>
        if !data.JObj? then Failure(Malformed)
        else
          match Lookup(data.fields, "prefixes")
          case None => Success([])
          case Some(prefixes) => Iterate(prefixes)
  }

  /** Neither `data` nor `prefixes` under it is present, the two defaults of line 31. */
  predicate PrefixesAbsent(doc: Json) {
    && doc.JObj?
    && match Lookup(doc.fields, "data")
       case None => true
       case Some(data) => data.JObj? && !HasKey(data.fields, "prefixes")
  }

  /* ---------------------------------------------------------------------- */
  /* Keeping and deduplicating: {p["prefix"] for p in prefixes if "prefix" in p} */
  /* ---------------------------------------------------------------------- */

  /**
   * `p["prefix"] if "prefix" in p` for one record: an object is searched for the
   * key; a string is searched for the substring and a list for the element,
   * where a hit makes `p["prefix"]` a TypeError; for a number, a boolean or
   * null the membership check itself is a TypeError.
   */
  function PrefixOf(record: Json): (r: Result<Option<Json>, Error>)
    ensures r.Success? && r.value.Some? <==> record.JObj? && HasKey(record.fields, "prefix")
    ensures r.Success? && r.value.Some? ==> Lookup(record.fields, "prefix") == r.value
    ensures record.JObj? ==> r.Success?
    ensures r.Failure? <==>
              || (record.JStr? && Contains(record.s, "prefix"))
              || (record.JArr? && JStr("prefix") in record.items)
              || !(record.JObj? || record.JStr? || record.JArr?)
  {
    match record
    case JObj(fields) =>
      if HasKey(fields, "prefix") then Success(Lookup(fields, "prefix")) else Success(None)
    case JStr(s) =>
      if Contains(s, "prefix") then Failure(Malformed) else Success(None)
    case JArr(items) =>
      if JStr("prefix") in items then Failure(Malformed) else Success(None)
    case _ => Failure(Malformed)
  }

  /** A value a Python set can hold: lists and objects are unhashable. */
  predicate Hashable(v: Json) {
    !v.JArr? && !v.JObj?
  }

  /** One record passes the comprehension without raising. */
  predicate RecordOk(record: Json) {
    match PrefixOf(record)
    case Failure(_) => false
    case Success(None) => true
    case Success(Some(v)) => Hashable(v)
  }

  /** The set of `prefix` values of the records that have the key: the reference for the comprehension. */
  function PrefixSet(records: seq<Json>): set<Json> {
    set i | 0 <= i < |records| && records[i].JObj? && HasKey(records[i].fields, "prefix")
      :: Lookup(records[i].fields, "prefix").value
  }

  /** The values the comprehension collects, in record order, repeats included. */
  function PrefixValues(records: seq<Json>): (r: Result<seq<Json>, Error>)
    ensures r.Success? <==> forall i :: 0 <= i < |records| ==> RecordOk(records[i])
    ensures r.Failure? ==> r.error == Malformed
    ensures r.Success? ==> forall v :: v in r.value ==> Hashable(v)
  {
    if |records| == 0 then Success([])
    else
      var rest := PrefixValues(records[1..]);
      assert forall i :: 1 <= i < |records| ==> records[1..][i - 1] == records[i];
      match PrefixOf(records[0])
      case Failure(e) => Failure(e)
      case Success(None) => rest
      case Success(Some(v)) =>
        if !Hashable(v) then Failure(Malformed)
        else if rest.Failure? then rest
        else Success([v] + rest.value)
  }

  /** The collected values are exactly the members of the reference set. */
  lemma {:induction false} PrefixValuesMatchSet(records: seq<Json>)
    requires PrefixValues(records).Success?
    ensures forall v :: v in PrefixValues(records).value <==> v in PrefixSet(records)
    decreases |records|
  {
    if |records| > 0 {
      var tail := records[1..];
      assert PrefixValues(tail).Success?;
      PrefixValuesMatchSet(tail);
      forall v
        ensures v in PrefixSet(records) <==> v in PrefixSet(tail) || PrefixOf(records[0]) == Success(Some(v))
      {
        if v in PrefixSet(records) {
          var i :| 0 <= i < |records| && records[i].JObj? && HasKey(records[i].fields, "prefix")
                   && Lookup(records[i].fields, "prefix").value == v;
          if i > 0 {
            assert tail[i - 1] == records[i];
          }
        }
        if v in PrefixSet(tail) {
          var i :| 0 <= i < |tail| && tail[i].JObj? && HasKey(tail[i].fields, "prefix")
                   && Lookup(tail[i].fields, "prefix").value == v;
          assert records[i + 1] == tail[i];
        }
      }
    }
  }

  /** The iteration of a Python set: every value once. */
  function Dedup(s: seq<Json>): (r: seq<Json>)
    ensures Distinct(r)
    ensures forall x :: x in r <==> x in s
    ensures |r| <= |s|
  {
    if |s| == 0 then []
    else
      var rest := Dedup(s[1..]);
      if s[0] in s[1..] then rest
      else
        ConsDistinct(s[0], rest);
        [s[0]] + rest
  }

  /* ---------------------------------------------------------------------- */
  /* Sorting: sorted(..., key=sort_key)                                       */
  /* ---------------------------------------------------------------------- */

  /**
   * `sort_key(text)`: the key of `ip_network(text, strict=False)`, or None
   * when `ip_network` raises. The key's address is the written address with
   * the host bits cleared.
   */
  function SortKeyOf(parse: Parser, text: string): (r: Option<SortKey>)
    ensures parse(text).None? ==> r.None?
    ensures parse(text).Some? ==>
      var lit := parse(text).value;
      && (r.Some? <==> lit.length <= lit.family.Width() && lit.address < Pow2(lit.family.Width()))
      && (r.Some? ==>
            && r.value.version == lit.family.Version()
            && r.value.length == lit.length
            && r.value.address < Pow2(lit.family.Width())
            && r.value.address % Pow2(lit.family.Width() - lit.length) == 0
            && r.value.address <= lit.address
            && lit.address - r.value.address < Pow2(lit.family.Width() - lit.length))
  {
    match parse(text)
    case None => None
    case Some(lit) =>
      match ToNetwork(lit)
      case None => None
      case Some(net) => Some(KeyOf(net))
  }

  /** A collected value paired with its key, or None when it is not a string that parses. */
  function EntryOf(parse: Parser, v: Json): (r: Option<Entry>)
    ensures r.Some? <==> v.JStr? && SortKeyOf(parse, v.s).Some?
    ensures r.Some? ==> r.value == Entry(v.s, SortKeyOf(parse, v.s).value)
  {
    if v.JStr? then
      match SortKeyOf(parse, v.s)
      case None => None
      case Some(k) => Some(Entry(v.s, k))
    else None
  }

  /** Computing the key of every value; one failure aborts the whole sort. */
  function Entries(parse: Parser, vs: seq<Json>): (r: Result<seq<Entry>, Error>)
    ensures r.Success? <==> forall i :: 0 <= i < |vs| ==> EntryOf(parse, vs[i]).Some?
    ensures r.Failure? ==> r.error == BadPrefix
    ensures r.Success? ==> |r.value| == |vs|
    ensures r.Success? ==> forall i :: 0 <= i < |vs| ==> EntryOf(parse, vs[i]) == Some(r.value[i])
  {
    if |vs| == 0 then Success([])
    else
      match EntryOf(parse, vs[0])
      case None => Failure(BadPrefix)
      case Some(e) =>
        var rest := Entries(parse, vs[1..]);
        assert forall i :: 1 <= i < |vs| ==> vs[1..][i - 1] == vs[i];
        if rest.Failure? then rest else Success([e] + rest.value)
  }

  /** The prefix strings of a sequence of entries, in order. */
  function Texts(es: seq<Entry>): (r: seq<string>)
    ensures |r| == |es|
    ensures forall i :: 0 <= i < |es| ==> r[i] == es[i].text
  {
    seq(|es|, i requires 0 <= i < |es| => es[i].text)
  }

  /** Every string has a sort key. */
  predicate AllKeyed(parse: Parser, cidrs: seq<string>) {
    forall i :: 0 <= i < |cidrs| ==> SortKeyOf(parse, cidrs[i]).Some?
  }

  /** Sort keys never decrease along the list. */
  predicate SortedByKey(parse: Parser, cidrs: seq<string>)
    requires AllKeyed(parse, cidrs)
  {
    forall i, j :: 0 <= i < j < |cidrs| ==> KeyLe(SortKeyOf(parse, cidrs[i]).value, SortKeyOf(parse, cidrs[j]).value)
  }

  /** What the normaliser promises of a list: keyed, non-decreasing in key, no repeats. */
  predicate NormalForm(parse: Parser, cidrs: seq<string>) {
    AllKeyed(parse, cidrs) && SortedByKey(parse, cidrs) && Distinct(cidrs)
  }

  /** Entries whose keys are the keys of their texts, sorted and duplicate-free, give a list in normal form. */
  lemma EntriesNormalForm(parse: Parser, es: seq<Entry>)
    requires forall e :: e in es ==> SortKeyOf(parse, e.text) == Some(e.key)
    requires Sorted(es) && Distinct(es)
    ensures NormalForm(parse, Texts(es))
  {
    var t := Texts(es);
    forall i | 0 <= i < |es|
      ensures SortKeyOf(parse, t[i]) == Some(es[i].key)
    {
      assert es[i] in es;
    }
  }

  /**
   * The whole normaliser, lines 31-32: extract the records, keep and
   * deduplicate the `prefix` values, then sort them by key. The result is
   * either the complete list or an error, never a part of the list.
   */
  function Normalize(doc: Json, parse: Parser): (r: Result<seq<string>, Error>)
    ensures r.Success? ==> NormalForm(parse, r.value)
  {
    var records :- Records(doc);
    var values :- PrefixValues(records);
    var unique := Dedup(values);
    var entries :- Entries(parse, unique);
    var sorted := SortEntries(entries);
    assert forall e :: e in entries ==> SortKeyOf(parse, e.text) == Some(e.key) by {
      forall e | e in entries
        ensures SortKeyOf(parse, e.text) == Some(e.key)
      {
        var i :| 0 <= i < |entries| && entries[i] == e;
        assert EntryOf(parse, unique[i]) == Some(e);
      }
    }
    assert Distinct(entries) by {
      forall i, j | 0 <= i < j < |entries|
        ensures entries[i] != entries[j]
      {
        assert EntryOf(parse, unique[i]) == Some(entries[i]);
        assert EntryOf(parse, unique[j]) == Some(entries[j]);
      }
    }
    EntriesNormalForm(parse, sorted);
    Success(Texts(sorted))
  }

  /** The stages of a successful normalisation, one after the other. */
  lemma NormalizeStages(doc: Json, parse: Parser, records: seq<Json>, values: seq<Json>, entries: seq<Entry>)
    requires Records(doc) == Success(records)
    requires PrefixValues(records) == Success(values)
    requires Entries(parse, Dedup(values)) == Success(entries)
    ensures Normalize(doc, parse) == Success(Texts(SortEntries(entries)))
  {
  }

  /* ---------------------------------------------------------------------- */
  /* Properties of the normaliser                                           */
  /* ---------------------------------------------------------------------- */

  /** A document without `data`, or whose `data` has no `prefixes`, normalises to the empty list. */
  lemma MissingPathYieldsEmpty(doc: Json, parse: Parser)
    requires PrefixesAbsent(doc)
    ensures Normalize(doc, parse) == Success([])
  {
  }

  /** A string is among the texts of some entries exactly when an entry carries it. */
  lemma TextsMembers(es: seq<Entry>)
    ensures forall s :: s in Texts(es) <==> exists e :: e in es && e.text == s
  {
    forall s | exists e :: e in es && e.text == s
      ensures s in Texts(es)
    {
      var e :| e in es && e.text == s;
      var k :| 0 <= k < |es| && es[k] == e;
      assert Texts(es)[k] == s;
    }
  }

  /** The entries computed for some values carry exactly the strings among those values. */
  lemma EntriesMembers(parse: Parser, vs: seq<Json>, es: seq<Entry>)
    requires Entries(parse, vs) == Success(es)
    ensures forall s :: (exists e :: e in es && e.text == s) <==> JStr(s) in vs
  {
    forall s
      ensures (exists e :: e in es && e.text == s) <==> JStr(s) in vs
    {
      if exists e :: e in es && e.text == s {
        var e :| e in es && e.text == s;
        var i :| 0 <= i < |es| && es[i] == e;
        assert EntryOf(parse, vs[i]) == Some(e);
      }
      if JStr(s) in vs {
        var i :| 0 <= i < |vs| && vs[i] == JStr(s);
        assert EntryOf(parse, vs[i]) == Some(es[i]);
        assert es[i] in es;
      }
    }
  }

  /** When the normaliser succeeds, every kept value is a string. */
  lemma KeptValuesAreStrings(doc: Json, parse: Parser)
    requires Normalize(doc, parse).Success?
    ensures Records(doc).Success? && PrefixValues(Records(doc).value).Success?
    ensures forall v :: v in PrefixSet(Records(doc).value) ==> v.JStr?
  {
    var records := Records(doc).value;
    PrefixValuesMatchSet(records);
    var unique := Dedup(PrefixValues(records).value);
    forall v | v in PrefixSet(records)
      ensures v.JStr?
    {
      var i :| 0 <= i < |unique| && unique[i] == v;
      assert EntryOf(parse, unique[i]).Some?;
    }
  }

  /**
   * On success the output holds exactly the `prefix` values of the records
   * that have the key, each a string; records without the key contribute
   * nothing.
   */
  lemma NormalizeKeepsExactlyThePrefixes(doc: Json, parse: Parser)
    requires Normalize(doc, parse).Success?
    ensures Records(doc).Success? && PrefixValues(Records(doc).value).Success?
    ensures forall v :: v in PrefixSet(Records(doc).value) ==> v.JStr?
    ensures forall s :: s in Normalize(doc, parse).value <==> JStr(s) in PrefixSet(Records(doc).value)
  {
    KeptValuesAreStrings(doc, parse);
    var records := Records(doc).value;
    var values := PrefixValues(records).value;
    PrefixValuesMatchSet(records);
    var entries := Entries(parse, Dedup(values)).value;
    EntriesMembers(parse, Dedup(values), entries);
    TextsMembers(SortEntries(entries));
    NormalizeStages(doc, parse, records, values, entries);
  }

  /** A document of the wrong shape, and only such a document, fails with `Malformed`. */
  lemma NormalizeMalformed(doc: Json, parse: Parser)
    ensures Normalize(doc, parse) == Failure(Malformed) <==>
              Records(doc).Failure? || PrefixValues(Records(doc).value).Failure?
  {
    if Records(doc).Failure? {
      assert Records(doc).error == Malformed;
    }
  }

  /**
   * Once the document has the expected shape, the normaliser fails, with
   * `BadPrefix`, exactly when some kept value is not a string that parses as
   * a network; otherwise it returns the complete list.
   */
  lemma NormalizeBadPrefix(doc: Json, parse: Parser)
    requires Records(doc).Success? && PrefixValues(Records(doc).value).Success?
    ensures Normalize(doc, parse).Failure? ==> Normalize(doc, parse).error == BadPrefix
    ensures Normalize(doc, parse).Failure? <==>
              exists v :: v in PrefixSet(Records(doc).value) && EntryOf(parse, v).None?
  {
    var records := Records(doc).value;
    var unique := Dedup(PrefixValues(records).value);
    PrefixValuesMatchSet(records);
    assert Normalize(doc, parse).Failure? <==> Entries(parse, unique).Failure?;
    UnkeyedMember(parse, unique, PrefixSet(records));
  }

  /** Computing the entries fails exactly when some value, among those of a given set, has no key. */
  lemma UnkeyedMember(parse: Parser, vs: seq<Json>, members: set<Json>)
    requires forall v :: v in vs <==> v in members
    ensures Entries(parse, vs).Failure? <==> exists v :: v in members && EntryOf(parse, v).None?
  {
    if Entries(parse, vs).Failure? {
      var i :| 0 <= i < |vs| && EntryOf(parse, vs[i]).None?;
      assert vs[i] in members;
    }
    if exists v :: v in members && EntryOf(parse, v).None? {
      var v :| v in members && EntryOf(parse, v).None?;
      var i :| 0 <= i < |vs| && vs[i] == v;
    }
  }

  /** In a list in normal form every IPv4 prefix comes before every IPv6 prefix. */
  lemma IPv4PrecedesIPv6(parse: Parser, cidrs: seq<string>, i: nat, j: nat)
    requires NormalForm(parse, cidrs)
    requires i < |cidrs| && j < |cidrs|
    requires SortKeyOf(parse, cidrs[i]).value.version == 4
    requires SortKeyOf(parse, cidrs[j]).value.version == 6
    ensures i < j
  {
  }

  /** The list of a normal-form sequence of strings paired with their keys. */
  function Keyed(parse: Parser, cidrs: seq<string>): (r: seq<Entry>)
    requires AllKeyed(parse, cidrs)
    ensures |r| == |cidrs|
    ensures forall i :: 0 <= i < |cidrs| ==> r[i] == Entry(cidrs[i], SortKeyOf(parse, cidrs[i]).value)
  {
    seq(|cidrs|, i requires 0 <= i < |cidrs| => Entry(cidrs[i], SortKeyOf(parse, cidrs[i]).value))
  }

  /**
   * The normal form pins the output down up to the order of strings of equal
   * key: two lists in normal form with the same members have the same length
   * and the same key at every position. Python's set gives no iteration
   * order, so whichever order it yields, the keys of the result are these.
   */
  lemma NormalFormDeterminesKeys(parse: Parser, a: seq<string>, b: seq<string>)
    requires NormalForm(parse, a) && NormalForm(parse, b)
    requires forall s :: s in a <==> s in b
    ensures |a| == |b|
    ensures forall i :: 0 <= i < |a| ==> SortKeyOf(parse, a[i]) == SortKeyOf(parse, b[i])
  {
    var ea, eb := Keyed(parse, a), Keyed(parse, b);
    KeyedNormalForm(parse, a);
    KeyedNormalForm(parse, b);
    KeyedMembers(parse, a, b);
    KeyedMembers(parse, b, a);
    DistinctSameMembers(ea, eb);
    SortedPermutationsHaveSameKeys(ea, eb);
    assert Keys(ea) == Keys(eb);
  }

  /** Pairing a normal-form list with its keys gives sorted, duplicate-free entries. */
  lemma KeyedNormalForm(parse: Parser, a: seq<string>)
    requires NormalForm(parse, a)
    ensures Sorted(Keyed(parse, a)) && Distinct(Keyed(parse, a))
  {
  }

  /** Lists with the same members give keyed entries with the same members. */
  lemma KeyedMembers(parse: Parser, a: seq<string>, b: seq<string>)
    requires AllKeyed(parse, a) && AllKeyed(parse, b)
    requires forall s :: s in a ==> s in b
    ensures forall e :: e in Keyed(parse, a) ==> e in Keyed(parse, b)
  {
    var ea, eb := Keyed(parse, a), Keyed(parse, b);
    forall e | e in ea
      ensures e in eb
    {
      var i :| 0 <= i < |ea| && ea[i] == e;
      assert a[i] in b;
      var j :| 0 <= j < |b| && b[j] == a[i];
      assert eb[j] == e;
    }
  }
}
