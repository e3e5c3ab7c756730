/** A reader for the "Active Objects" column: it recovers the list of objects
    from the text `ObjectsJson` produces. It is the inverse that pins down the
    serialiser's shape: one record per object, in order, seven pose numbers each,
    separators only between records. */
module ObjectsDecoding {
  import opened Wrappers
  import opened ActiveObjects

  /** Splits `s` at the first occurrence of `c` into the text before it and the
      text after it. */
  function SplitAt(s: string, c: char): (r: Option<(string, string)>)
    ensures r.Some? ==> c !in r.value.0 && s == r.value.0 + [c] + r.value.1
    ensures r.None? ==> c !in s
  {
    if |s| == 0 then None
    else if s[0] == c then Some(("", s[1..]))
    else match SplitAt(s[1..], c)
      case None => None
      case Some((before, after)) => Some(([s[0]] + before, after))
  }

  /** Splitting text that has no `c` before a `c` gives back both parts. */
  lemma {:induction false} SplitAtFirst(a: string, c: char, b: string)
    requires c !in a
    ensures SplitAt(a + [c] + b, c) == Some((a, b))
  {
    var s := a + [c] + b;
    if |a| > 0 {
      assert s[1..] == a[1..] + [c] + b;
      SplitAtFirst(a[1..], c, b);
      assert [s[0]] + a[1..] == a;
    } else {
      assert s[1..] == b;
    }
  }

  /** `s` without its prefix `lit`, when it has that prefix. */
  function DropPrefix(s: string, lit: string): (r: Option<string>)
    ensures r.Some? ==> s == lit + r.value
  {
    if |lit| <= |s| && s[..|lit|] == lit then Some(s[|lit|..]) else None
  }

  lemma DropPrefixOf(lit: string, rest: string)
    ensures DropPrefix(lit + rest, lit) == Some(rest)
  {
    assert (lit + rest)[..|lit|] == lit;
    assert (lit + rest)[|lit|..] == rest;
  }

  /** A formatted number the reader can delimit: it holds no comma and no closing bracket. */
  predicate PlainNumber(p: string) {
    ',' !in p && ']' !in p
  }

  /** An object whose record the reader can take apart: its alias holds no double
      quote and its pose numbers are plain. */
  predicate Readable(o: SceneObject) {
    '"' !in o.alias && forall i :: 0 <= i < 7 ==> PlainNumber(o.pose[i])
  }

  /** Reads `k` numbers separated by `Separator` and closed by `]`. */
  function ReadNumbers(s: string, k: nat): (r: Option<(seq<string>, string)>)
    requires k >= 1
    ensures r.Some? ==> |r.value.0| == k && |r.value.1| < |s|
    decreases k
  {
    if k == 1 then
      match SplitAt(s, ']')
      case None => None
      case Some((number, rest)) => Some(([number], rest))
    else
      match SplitAt(s, ',')
      case None => None
      case Some((number, afterComma)) =>
        match DropPrefix(afterComma, " ")
        case None => None
        case Some(next) =>
          match ReadNumbers(next, k - 1)
          case None => None
          case Some((numbers, rest)) => Some(([number] + numbers, rest))
  }

  /** A plain number closed by `]` reads as one number. */
  lemma ReadLastNumber(number: string, rest: string)
    requires PlainNumber(number)
    ensures ReadNumbers(number + "]" + rest, 1) == Some(([number], rest))
  {
    assert number + "]" + rest == number + [']'] + rest;
    SplitAtFirst(number, ']', rest);
  }

  /** A plain number followed by a separator and `k` readable numbers reads as
      `k + 1` numbers. */
  lemma ReadNextNumber(number: string, next: string, k: nat, numbers: seq<string>, rest: string)
    requires PlainNumber(number) && k >= 1
    requires ReadNumbers(next, k) == Some((numbers, rest))
    ensures ReadNumbers(number + Separator + next, k + 1) == Some(([number] + numbers, rest))
  {
    assert Separator == [','] + " ";
    Regroup(number, [','], " ");
    Regroup(number + [','], " ", next);
    SplitAtFirst(number, ',', " " + next);
    DropPrefixOf(" ", next);
  }

  lemma {:induction false} ReadNumbersOf(numbers: seq<string>, rest: string)
    requires |numbers| >= 1
    requires forall i :: 0 <= i < |numbers| ==> PlainNumber(numbers[i])
    ensures ReadNumbers(Join(numbers) + "]" + rest, |numbers|) == Some((numbers, rest))
  {
    if |numbers| == 1 {
      ReadLastNumber(numbers[0], rest);
      assert [numbers[0]] == numbers;
    } else {
      var others := Join(numbers[1..]);
      assert Join(numbers) == numbers[0] + Separator + others;
      Regroup(numbers[0] + Separator, others, "]");
      Regroup(numbers[0] + Separator, others + "]", rest);
      ReadNumbersOf(numbers[1..], rest);
      ReadNextNumber(numbers[0], others + "]" + rest, |numbers| - 1, numbers[1..], rest);
      assert [numbers[0]] + numbers[1..] == numbers;
    }
  }

  const AliasOpen := "{ \"alias\": \""
  const PoseOpen := ", \"pose\": ["

  /** Reads one record and returns the object and the text after it. */
  function ReadRecord(s: string): (r: Option<(SceneObject, string)>)
    ensures r.Some? ==> |r.value.1| < |s|
  {
    match DropPrefix(s, AliasOpen)
    case None => None
    case Some(s1) =>
      match SplitAt(s1, '"')
      case None => None
      case Some((alias, s2)) =>
        match DropPrefix(s2, PoseOpen)
        case None => None
        case Some(s3) =>
          match ReadNumbers(s3, 7)
          case None => None
          case Some((pose, s4)) =>
            match DropPrefix(s4, "}")
            case None => None
            case Some(rest) => Some((SceneObject(alias, pose), rest))
  }

  lemma ReadRecordOf(o: SceneObject, rest: string)
    requires Readable(o)
    ensures ReadRecord(Record(o) + rest) == Some((o, rest))
  {
    var closing := "}" + rest;
    var s3 := Join(o.pose) + "]" + closing;
    var s2 := PoseOpen + s3;
    var s1 := o.alias + ['"'] + s2;
    var aliasPart := AliasOpen + o.alias + "\", " + "\"pose\": [";
    Regroup(aliasPart + Join(o.pose) + "]", "}", rest);
    Regroup(aliasPart + Join(o.pose), "]", closing);
    Regroup(aliasPart, Join(o.pose), "]" + closing);
    Regroup(Join(o.pose), "]", closing);
    Regroup(AliasOpen + o.alias + "\", ", "\"pose\": [", s3);
    Regroup(AliasOpen + o.alias, "\", ", "\"pose\": [" + s3);
    Regroup("\", ", "\"pose\": [", s3);
    assert "\", " + "\"pose\": [" == ['"'] + PoseOpen;
    Regroup(['"'], PoseOpen, s3);
    Regroup(AliasOpen, o.alias, ['"'] + s2);
    Regroup(o.alias, ['"'], s2);
    assert Record(o) + rest == AliasOpen + s1;
    DropPrefixOf(AliasOpen, s1);
    SplitAtFirst(o.alias, '"', s2);
    DropPrefixOf(PoseOpen, s3);
    ReadNumbersOf(o.pose, "}" + rest);
    DropPrefixOf("}", rest);
  }

  /** Reads one or more records separated by `Separator` and closed by `]`. */
  function ReadRecords(s: string): Option<seq<SceneObject>>
    decreases |s|
  {
    match ReadRecord(s)
    case None => None
    case Some((o, rest)) =>
      if rest == "]" then Some([o])
      else
        match DropPrefix(rest, Separator)
        case None => None
        case Some(next) =>
          match ReadRecords(next)
          case None => None
          case Some(os) => Some([o] + os)
  }

  /** Reads the whole column. */
  function ReadObjects(s: string): Option<seq<SceneObject>>
  {
    match DropPrefix(s, "[")
    case None => None
    case Some(body) => if body == "]" then Some([]) else ReadRecords(body)
  }

  /** The written record of a single object, closed by `]`, reads as that
      one-object list. */
  lemma ReadLastRecord(objs: seq<SceneObject>)
    requires |objs| == 1 && Readable(objs[0])
    ensures ReadRecords(Join(Records(objs)) + "]") == Some(objs)
  {
    assert Records(objs) == [Record(objs[0])];
    ReadRecordOf(objs[0], "]");
    assert [objs[0]] == objs;
  }

  /** A record followed by a separator and a readable list reads as that list
      with the record's object in front. */
  lemma ReadNextRecord(o: SceneObject, next: string)
    requires Readable(o)
    ensures ReadRecords(Record(o) + Separator + next) ==
      match ReadRecords(next)
      case None => None
      case Some(os) => Some([o] + os)
  {
    Regroup(Record(o), Separator, next);
    ReadRecordOf(o, Separator + next);
    assert (Separator + next)[0] == ',';
    DropPrefixOf(Separator, next);
  }

  /** The records of a non-empty list are its head's record, then the rest's. */
  lemma RecordsCons(objs: seq<SceneObject>)
    requires |objs| >= 1
    ensures Records(objs) == [Record(objs[0])] + Records(objs[1..])
  {
  }

  /** When the written records of all objects but the first read back, so do
      those of all of them. */
  lemma ReadConsRecords(objs: seq<SceneObject>)
    requires |objs| >= 2 && Readable(objs[0])
    ensures ReadRecords(Join(Records(objs[1..])) + "]") == Some(objs[1..]) ==>
            ReadRecords(Join(Records(objs)) + "]") == Some(objs)
  {
    var o := objs[0];
    var others := Join(Records(objs[1..]));
    RecordsCons(objs);
    assert Join(Records(objs)) == Record(o) + Separator + others;
    Regroup(Record(o) + Separator, others, "]");
    ReadNextRecord(o, others + "]");
    assert [o] + objs[1..] == objs;
  }

  lemma {:induction false} ReadRecordsOf(objs: seq<SceneObject>)
    requires |objs| >= 1
    requires forall i :: 0 <= i < |objs| ==> Readable(objs[i])
    ensures ReadRecords(Join(Records(objs)) + "]") == Some(objs)
  {
    if |objs| == 1 {
      ReadLastRecord(objs);
    } else {
      ReadRecordsOf(objs[1..]);
      ReadConsRecords(objs);
    }
  }

  /** Round trip: reading the column gives back the objects that were written,
      and an absent list reads as the empty list. */
  lemma ReadWritten(objects: Option<seq<SceneObject>>)
    requires objects.Some? ==> forall i :: 0 <= i < |objects.value| ==> Readable(objects.value[i])
    ensures ReadObjects(ObjectsJson(objects)) == Some(if objects.None? then [] else objects.value)
  {
    if objects.None? || objects.value == [] {
      assert ObjectsJson(objects) == "[" + "]";
      DropPrefixOf("[", "]");
    } else {
      var objs := objects.value;
      var body := Join(Records(objs)) + "]";
      assert ObjectsJson(objects) == "[" + body;
      DropPrefixOf("[", body);
      assert body != "]" by {
        assert Records(objs)[0] == Record(objs[0]);
        NonEmptyJoin(Records(objs));
      }
      ReadRecordsOf(objs);
    }
  }

  /** Different readable object lists are written differently: the column records
      the whole list, in order. */
  lemma WrittenIsInjective(a: seq<SceneObject>, b: seq<SceneObject>)
    requires forall i :: 0 <= i < |a| ==> Readable(a[i])
    requires forall i :: 0 <= i < |b| ==> Readable(b[i])
    requires ObjectsJson(Some(a)) == ObjectsJson(Some(b))
    ensures a == b
  {
    ReadWritten(Some(a));
    ReadWritten(Some(b));
  }
}
