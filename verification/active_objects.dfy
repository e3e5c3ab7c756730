/** The "Active Objects" column of a sample row: the scene objects returned by the
    host as a JSON-like array `[{ "alias": "...", "pose": [p0, ..., p6]}, ...]`.
    The alias and the seven formatted pose numbers are host values, so they are
    opaque strings here. */
module ActiveObjects {
  import opened Wrappers

  /** The seven formatted numbers of an object's pose: position, then orientation quaternion. */
  type Pose = p: seq<string> | |p| == 7 witness ["", "", "", "", "", "", ""]

  /** What the host reports about one object of the scene tree. */
  datatype SceneObject = SceneObject(alias: string, pose: Pose)

  /** Placed between two records and between two pose numbers. */
  const Separator := ", "

  /** `items` with `Separator` between consecutive items and none after the last. */
  function Join(items: seq<string>): string
  {
    if |items| == 0 then ""
    else if |items| == 1 then items[0]
    else items[0] + Separator + Join(items[1..])
  }

  /** Joining one more item adds exactly one separator, before that item. */
  lemma {:induction false} JoinSnoc(items: seq<string>, x: string)
    ensures Join(items + [x]) == if |items| == 0 then x else Join(items) + Separator + x
  {
    if |items| >= 2 {
      assert (items + [x])[1..] == items[1..] + [x];
      JoinSnoc(items[1..], x);
    } else if |items| == 1 {
      assert (items + [x])[1..] == [x];
    }
  }

  /** One object's record. */
  function Record(o: SceneObject): string
  {
    "{ \"alias\": \"" + o.alias + "\", " + "\"pose\": [" + Join(o.pose) + "]" + "}"
  }

  /** The records of a list of objects, one per object, in order. */
  function Records(objects: seq<SceneObject>): seq<string>
  {
    seq(|objects|, i requires 0 <= i < |objects| => Record(objects[i]))
  }

  /** The text of the column; `None` stands for the null handle array the host
      returns when the scene query yields nothing. */
  function ObjectsJson(objects: Option<seq<SceneObject>>): string
  {
    match objects
    case None => "[]"
    case Some(objs) => "[" + Join(Records(objs)) + "]"
  }

  /** The column is always a bracketed array, and it is the empty array exactly
      when the query returned null or no objects. */
  lemma ObjectsJsonShape(objects: Option<seq<SceneObject>>)
    ensures var r := ObjectsJson(objects);
            |r| >= 2 && r[0] == '[' && r[|r| - 1] == ']' &&
            ((objects.None? || objects.value == []) <==> r == "[]")
  {
    if objects.Some? {
      var objs := objects.value;
      assert objs != [] ==> Records(objs)[0] == Record(objs[0]);
      NonEmptyJoin(Records(objs));
    }
  }

  /** A join of records is empty exactly when there are no records. */
  lemma {:induction false} NonEmptyJoin(records: seq<string>)
    requires forall i :: 0 <= i < |records| ==> |records[i]| > 0
    ensures |Join(records)| == 0 <==> records == []
  {
    if |records| >= 2 {
      NonEmptyJoin(records[1..]);
    }
  }

  /** The serialisation loop: opens the array, appends each object's record and a
      separator after every record but the last, and closes the array; a null
      handle array gives `[]`. */
  method SerializeObjects(objects: Option<seq<SceneObject>>) returns (data: string)
    ensures data == ObjectsJson(objects)
  {
    if objects.None? {
      data := "[]";
    } else {
      var objs := objects.value;
      data := "[";
      for i := 0 to |objs|
        invariant data == "[" + Join(Records(objs[..i])) + (if 0 < i < |objs| then Separator else "")
      {
        var o := objs[i];
        var head := "{ \"alias\": \"" + o.alias + "\", ";
        var tail := "\"pose\": ["
          + o.pose[0] + ", "
          + o.pose[1] + ", "
          + o.pose[2] + ", "
          + o.pose[3] + ", "
          + o.pose[4] + ", "
          + o.pose[5] + ", "
          + o.pose[6] + "]"
          + "}";
        ghost var before := data;
        data := data + head;
        data := data + tail;
        assert data == before + Record(o) by {
          RecordText(o);
          Regroup(before, head, tail);
        }
        RecordStep(objs, i, before);
        if i < |objs| - 1 {
          data := data + ", ";
        }
      }
      assert objs[..|objs|] == objs;
      data := data + "]";
      assert objs[..|objs|] == objs;
    }
  }

  /** One turn of the serialisation loop: after the opening bracket and the
      records so far, with a separator if there were any, the next record extends
      the join by one. */
  lemma RecordStep(objs: seq<SceneObject>, i: int, before: string)
    requires 0 <= i < |objs|
    requires before == "[" + Join(Records(objs[..i])) + (if 0 < i then Separator else "")
    ensures before + Record(objs[i]) == "[" + Join(Records(objs[..i + 1]))
  {
    var o := objs[i];
    assert objs[..i + 1] == objs[..i] + [o];
    AppendRecord(objs[..i], o);
    if i > 0 {
      var done := Join(Records(objs[..i]));
      Regroup("[", done + Separator, Record(o));
      Regroup("[", done, Separator);
    }
  }

  /** The pose written out number by number after some text `pre` is that text
      followed by the join of its seven numbers. */
  lemma PoseText(pre: string, p: Pose)
    ensures pre + Join(p) ==
      pre + p[0] + ", " + p[1] + ", " + p[2] + ", " + p[3] + ", " + p[4] + ", " + p[5] + ", " + p[6]
  {
    assert Join(p[..1]) == p[0];
    JoinPrefix(pre, p, 1);
    JoinPrefix(pre, p, 2);
    JoinPrefix(pre, p, 3);
    JoinPrefix(pre, p, 4);
    JoinPrefix(pre, p, 5);
    JoinPrefix(pre, p, 6);
    assert p[..7] == p;
  }

  /** The join of a non-empty prefix grows by a separator and the next item. */
  lemma JoinPrefix(pre: string, items: seq<string>, k: int)
    requires 0 < k < |items|
    ensures pre + Join(items[..k + 1]) == pre + Join(items[..k]) + Separator + items[k]
  {
    assert items[..k + 1] == items[..k] + [items[k]];
    JoinSnoc(items[..k], items[k]);
    Regroup(pre, Join(items[..k]) + Separator, items[k]);
    Regroup(pre, Join(items[..k]), Separator);
  }

  /** String concatenation is associative. */
  lemma Regroup(a: string, b: string, c: string)
    ensures a + (b + c) == (a + b) + c
  {
  }

  /** The record written out piece by piece, as the serialisation loop does. */
  lemma RecordText(o: SceneObject)
    ensures Record(o) ==
      ("{ \"alias\": \"" + o.alias + "\", ") +
      ("\"pose\": [" + o.pose[0] + ", " + o.pose[1] + ", " + o.pose[2] + ", " + o.pose[3] + ", "
        + o.pose[4] + ", " + o.pose[5] + ", " + o.pose[6] + "]" + "}")
  {
    PoseText("\"pose\": [", o.pose);
    var head := "{ \"alias\": \"" + o.alias + "\", ";
    var poseOpen := "\"pose\": [";
    var numbers := Join(o.pose);
    Regroup(head, poseOpen + numbers + "]", "}");
    Regroup(head, poseOpen + numbers, "]");
    Regroup(head, poseOpen, numbers);
  }

  /** Adding an object to the list appends its record, preceded by a separator
      unless it is the first: there is a separator between records and none after
      the last one. */
  lemma AppendRecord(objs: seq<SceneObject>, o: SceneObject)
    ensures Join(Records(objs + [o])) ==
      if objs == [] then Record(o) else Join(Records(objs)) + Separator + Record(o)
  {
    assert Records(objs + [o]) == Records(objs) + [Record(o)];
    JoinSnoc(Records(objs), Record(o));
  }
}
