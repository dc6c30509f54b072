/** The per-archive record stage of extract_fulltext.py: projecting a decoded
    line onto the seven wanted keys (`stream_json_xz`) and keeping the records
    that carry full text (`process_file`). */
module Records {
  import opened Outcomes
  import opened Json

  /** `DESIRED_KEYS`, in column order. */
  const DesiredKeys: seq<string> :=
    ["coreId", "title", "authors", "datePublished", "fullText", "relations", "year"]

  const KeySet: set<string> := set k | k in DesiredKeys

  /** A projected record: a dict from key to decoded value. */
  type Record = map<string, Json>

  /** One line of a decompressed archive, after `json.loads`: a value, or a
      line that raised `JSONDecodeError`. */
  datatype Line = Parsed(value: Json) | Malformed

  predicate IsProjected(r: Record) {
    r.Keys == KeySet
  }

  predicate AllProjected(rs: seq<Record>) {
    forall j :: 0 <= j < |rs| ==> IsProjected(rs[j])
  }

  /** `dict.get(key)`: the value, or None when the key is absent. */
  function Get(r: map<string, Json>, key: string): Json {
    if key in r then r[key] else JNull
  }

  /** `{key: json_data.get(key) for key in DESIRED_KEYS}`. */
  function Project(obj: map<string, Json>): Record {
    map k | k in KeySet :: Get(obj, k)
  }

  /** The projection has exactly the seven keys; a present key keeps its
      value and an absent one becomes JSON null. */
  lemma ProjectSpec(obj: map<string, Json>)
    ensures IsProjected(Project(obj))
    ensures forall k :: k in obj && k in KeySet ==> Project(obj)[k] == obj[k]
    ensures forall k :: k !in obj && k in KeySet ==> Project(obj)[k] == JNull
  {
  }

  /** Projecting a projection changes nothing. */
  lemma ProjectIdempotent(obj: map<string, Json>)
    ensures Project(Project(obj)) == Project(obj)
  {
  }

  /** Keys outside `DESIRED_KEYS` are dropped: changing them does not change the projection. */
  lemma ProjectIgnoresOtherKeys(obj: map<string, Json>, k: string, v: Json)
    requires k !in KeySet
    ensures Project(obj[k := v]) == Project(obj)
  {
  }

  /** An absent key and a key holding JSON null project alike. */
  lemma ProjectAbsentIsNull(obj: map<string, Json>, k: string)
    requires k !in obj
    ensures Project(obj[k := JNull]) == Project(obj)
  {
  }

  /** The records `stream_json_xz` yields for an archive's lines, or the fault
      that ends the stream: a line that parses to something other than an
      object has no `.get`, and the AttributeError is not caught. */
  function Stream(lines: seq<Line>): Result<seq<Record>> {
    if lines == [] then Ok([])
    else
      var rest := Stream(lines[1..]);
      match lines[0]
      case Malformed => rest
      case Parsed(v) =>
        if !v.JObject? then Err(RecordNotAnObject)
        else if rest.Err? then rest
        else Ok([Project(v.members)] + rest.value)
  }

  /** The stream fails exactly when some line parses to a non-object;
      otherwise it yields one projected record per object line. */
  lemma {:induction false} StreamSpec(lines: seq<Line>)
    ensures Stream(lines).Ok? <==> forall i :: 0 <= i < |lines| && lines[i].Parsed? ==> lines[i].value.JObject?
    ensures Stream(lines).Ok? ==> |Stream(lines).value| <= |lines|
    ensures Stream(lines).Ok? ==> forall j :: 0 <= j < |Stream(lines).value| ==> IsProjected(Stream(lines).value[j])
  {
    if lines != [] {
      StreamSpec(lines[1..]);
      assert forall i :: 1 <= i < |lines| ==> lines[i] == lines[1..][i - 1];
    }
  }

  /** The outcome of streaming `a` and then `b`. */
  function Then(a: Result<seq<Record>>, b: Result<seq<Record>>): Result<seq<Record>> {
    if a.Err? then a else if b.Err? then b else Ok(a.value + b.value)
  }

  /** Streaming is line by line: the records of `a + b` are those of `a`
      followed by those of `b`, and the first fault wins. */
  lemma {:induction false} StreamAppend(a: seq<Line>, b: seq<Line>)
    ensures Stream(a + b) == Then(Stream(a), Stream(b))
  {
    if a != [] {
      assert (a + b)[0] == a[0] && (a + b)[1..] == a[1..] + b;
      StreamAppend(a[1..], b);
      var tail, rb := Stream(a[1..]), Stream(b);
      if a[0].Parsed? && a[0].value.JObject? && tail.Ok? && rb.Ok? {
        var p := Project(a[0].value.members);
        AppendAssoc([p], tail.value, rb.value);
      }
    } else {
      assert a + b == b;
      assert Stream(a) == Ok([]);
      if Stream(b).Ok? {
        assert [] + Stream(b).value == Stream(b).value;
      }
    }
  }

  /** A line that fails to decode yields nothing and does not disturb the
      records of the lines around it. */
  lemma SkipsMalformed(a: seq<Line>, b: seq<Line>)
    ensures Stream(a + [Malformed] + b) == Stream(a + b)
  {
    StreamAppend(a + [Malformed], b);
    StreamAppend(a, [Malformed]);
    StreamAppend(a, b);
    assert Stream([Malformed]) == Ok([]) by {
      assert [Malformed][1..] == [];
      assert Stream([]) == Ok([]);
    }
    if Stream(a).Ok? {
      assert Stream(a).value + [] == Stream(a).value;
    }
  }

  /** A line holding an object yields exactly its projection. */
  lemma StreamObject(m: map<string, Json>)
    ensures Stream([Parsed(JObject(m))]) == Ok([Project(m)])
  {
    assert [Parsed(JObject(m))][1..] == [];
    assert Stream([]) == Ok([]);
    assert [Project(m)] + [] == [Project(m)];
  }

  /** `json_object.get('fullText')` is truthy. */
  predicate HasFullText(r: Record) {
    Truthy(Get(r, "fullText"))
  }

  /** The records of `rs` that carry full text, in their order. */
  function KeepFullText(rs: seq<Record>): seq<Record> {
    if rs == [] then []
    else
      var kept := KeepFullText(rs[..|rs| - 1]);
      if HasFullText(rs[|rs| - 1]) then kept + [rs[|rs| - 1]] else kept
  }

  /** The filter keeps exactly the records that carry full text. */
  lemma {:induction false} KeepFullTextSpec(rs: seq<Record>)
    ensures |KeepFullText(rs)| <= |rs|
    ensures forall x :: x in KeepFullText(rs) <==> x in rs && HasFullText(x)
  {
    if rs != [] {
      KeepFullTextSpec(rs[..|rs| - 1]);
      assert rs == rs[..|rs| - 1] + [rs[|rs| - 1]];
    }
  }

  /** The full-text filter keeps order: it distributes over concatenation. */
  lemma {:induction false} KeepFullTextAppend(a: seq<Record>, b: seq<Record>)
    ensures KeepFullText(a + b) == KeepFullText(a) + KeepFullText(b)
  {
    if b == [] {
      assert a + b == a;
    } else {
      assert (a + b)[..|a + b| - 1] == a + b[..|b| - 1];
      KeepFullTextAppend(a, b[..|b| - 1]);
    }
  }

  /** What `process_file` returns for an archive with these lines. */
  function FullTextRecords(lines: seq<Line>): Result<seq<Record>> {
    match Stream(lines)
    case Err(f) => Err(f)
    case Ok(rs) => Ok(KeepFullText(rs))
  }

  /** `process_file` fails exactly when the stream does, and every record it
      returns is projected and carries full text. */
  lemma FullTextRecordsSpec(lines: seq<Line>)
    ensures FullTextRecords(lines).Ok? <==> Stream(lines).Ok?
    ensures FullTextRecords(lines).Ok? ==> forall j :: 0 <= j < |FullTextRecords(lines).value| ==>
      IsProjected(FullTextRecords(lines).value[j]) && HasFullText(FullTextRecords(lines).value[j])
  {
    if Stream(lines).Ok? {
      var rs := Stream(lines).value;
      StreamSpec(lines);
      KeepFullTextSpec(rs);
      var kept := KeepFullText(rs);
      forall j | 0 <= j < |kept| ensures IsProjected(kept[j]) && HasFullText(kept[j]) {
        assert kept[j] in rs;
      }
    }
  }

  /** `process_file`: collect the streamed records whose full text is truthy. */
  method ProcessFile(lines: seq<Line>) returns (r: Result<seq<Record>>)
    ensures r == FullTextRecords(lines)
  {
    var stream := Stream(lines);
    if stream.Err? {
      return Err(stream.fault);
    }
    var records := stream.value;
    var batch := [];
    for i := 0 to |records|
      invariant batch == KeepFullText(records[..i])
    {
      assert records[..i + 1][..i] == records[..i];
      if Truthy(Get(records[i], "fullText")) {
        batch := batch + [records[i]];
      }
    }
    assert records[..|records|] == records;
    return Ok(batch);
  }
}
