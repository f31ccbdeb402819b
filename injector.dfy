/** The capture script's handling of a tag-recommendation response (injector.js):
    take the parsed body, pull a name out of every entry of `recommended_tags`,
    and dispatch the non-empty list of names as a `SunoGenresFound` event. */
module Capture {
  import opened JsValues

  /** What happens to one parsed response: an event carrying the names, nothing,
      or the error path of the promise (logged, no event). */
  datatype Outcome = Dispatched(names: seq<JsValue>) | Ignored | Failed

  /** The callback of `.map` for one entry as the script writes it: a string is
      kept as it is, an object contributes its `name` when that is truthy, anything
      else becomes `null`. `None` is the `TypeError` of reading `.name` of `null`,
      whose `typeof` is also "object". */
  function NameOfAsWritten(tag: JsValue): Option<JsValue>
  {
    if TypeOf(tag) == "string" then Some(tag)
    else if TypeOf(tag) == "object" then
      match Get(tag, "name")
      case None => None
      case Some(name) => Some(if Truthy(name) then name else Null)
    else Some(Null)
  }

  /** The same callback with `null` entries mapped to `null` like every other
      entry without a name. */
  function NameOf(tag: JsValue): JsValue
  {
    if tag.Null? then Null
    else match NameOfAsWritten(tag)
      case Some(name) => name
      case None => Null
  }

  /** `.map(...).filter(Boolean)` as written: `None` when an entry throws. */
  function ExtractAsWritten(tags: seq<JsValue>): Option<seq<JsValue>>
  {
    if tags == [] then Some([])
    else
      match NameOfAsWritten(tags[0])
      case None => None
      case Some(name) =>
        match ExtractAsWritten(tags[1..])
        case None => None
        case Some(rest) => Some((if Truthy(name) then [name] else []) + rest)
  }

  /** What one entry leaves in the list after `filter(Boolean)`. */
  function Kept(tag: JsValue): seq<JsValue>
  {
    if Truthy(NameOf(tag)) then [NameOf(tag)] else []
  }

  /** `.map(...).filter(Boolean)` with `null` entries dropped. */
  function Extract(tags: seq<JsValue>): (r: seq<JsValue>)
    ensures |r| <= |tags|
  {
    if tags == [] then [] else Kept(tags[0]) + Extract(tags[1..])
  }

  /** The promise callback as written: an array of recommendations that is not
      empty is mapped, and a non-empty result is dispatched. */
  function CaptureAsWritten(data: JsValue): Outcome
  {
    if !Truthy(data) then Ignored
    else
      match Get(data, "recommended_tags")
      case Some(Arr(tags)) =>
        if |tags| == 0 then Ignored
        else
          (match ExtractAsWritten(tags)
           case None => Failed
           case Some(names) => if |names| > 0 then Dispatched(names) else Ignored)
      case _ => Ignored
  }

  /** The promise callback with `null` entries skipped. */
  function CaptureResponse(data: JsValue): Outcome
  {
    if !Truthy(data) then Ignored
    else
      match Get(data, "recommended_tags")
      case Some(Arr(tags)) =>
        if |tags| == 0 then Ignored
        else
          var names := Extract(tags);
          if |names| > 0 then Dispatched(names) else Ignored
      case _ => Ignored
  }

  /** An entry contributes `v` when it is the non-empty string `v` or an object
      whose `name` is the truthy value `v`. */
  predicate Contributes(tag: JsValue, v: JsValue)
  {
    || (tag.Str? && tag.s != "" && v == tag)
    || (tag.Obj? && "name" in tag.props && tag.props["name"] == v && Truthy(v))
  }

  /** The extracted names are exactly what the entries contribute. */
  lemma {:induction false} ExtractMembers(tags: seq<JsValue>)
    ensures forall v :: v in Extract(tags) <==> exists i :: 0 <= i < |tags| && Contributes(tags[i], v)
  {
    if tags != [] {
      ExtractMembers(tags[1..]);
      forall v ensures (exists i :: 0 <= i < |tags| && Contributes(tags[i], v)) <==>
                       Contributes(tags[0], v) || exists i :: 0 <= i < |tags[1..]| && Contributes(tags[1..][i], v)
      {
        if exists i :: 0 <= i < |tags| && Contributes(tags[i], v) {
          var i :| 0 <= i < |tags| && Contributes(tags[i], v);
          if i > 0 {
            assert tags[1..][i - 1] == tags[i];
          }
        }
        if exists i :: 0 <= i < |tags[1..]| && Contributes(tags[1..][i], v) {
          var i :| 0 <= i < |tags[1..]| && Contributes(tags[1..][i], v);
          assert tags[i + 1] == tags[1..][i];
        }
      }
    }
  }

  /** Every extracted name is truthy, so `filter(Boolean)` has left nothing to drop. */
  lemma {:induction false} ExtractTruthy(tags: seq<JsValue>)
    ensures forall i :: 0 <= i < |Extract(tags)| ==> Truthy(Extract(tags)[i])
  {
    if tags != [] {
      ExtractTruthy(tags[1..]);
      var head := Kept(tags[0]);
      var r := Extract(tags);
      forall i | 0 <= i < |r| ensures Truthy(r[i]) {
        if i >= |head| {
          assert r[i] == Extract(tags[1..])[i - |head|];
        }
      }
    }
  }

  /** Extraction works entry by entry, so kept names keep their relative order. */
  lemma {:induction false} ExtractAppend(a: seq<JsValue>, b: seq<JsValue>)
    ensures Extract(a + b) == Extract(a) + Extract(b)
  {
    if a == [] {
      assert a + b == b;
    } else {
      assert (a + b)[0] == a[0];
      assert (a + b)[1..] == a[1..] + b;
      ExtractAppend(a[1..], b);
      calc {
        Extract(a + b);
        Kept(a[0]) + Extract(a[1..] + b);
        Kept(a[0]) + (Extract(a[1..]) + Extract(b));
        (Kept(a[0]) + Extract(a[1..])) + Extract(b);
      }
    }
  }

  /** As written and corrected agree on every list without a `null` entry. */
  lemma {:induction false} ExtractAsWrittenWithoutNull(tags: seq<JsValue>)
    requires Null !in tags
    ensures ExtractAsWritten(tags) == Some(Extract(tags))
  {
    if tags != [] {
      assert tags[0] in tags;
      assert Null !in tags[1..] by {
        forall k | 0 <= k < |tags[1..]| ensures tags[1..][k] != Null {
          assert tags[1..][k] == tags[k + 1];
        }
      }
      ExtractAsWrittenWithoutNull(tags[1..]);
    }
  }

  /** As written, one `null` entry anywhere makes the whole extraction throw. */
  lemma {:induction false} ExtractAsWrittenWithNull(tags: seq<JsValue>)
    requires Null in tags
    ensures ExtractAsWritten(tags) == None
  {
    if tags[0] != Null {
      assert Null in tags[1..] by {
        var k :| 0 <= k < |tags| && tags[k] == Null;
        assert tags[1..][k - 1] == Null;
      }
      ExtractAsWrittenWithNull(tags[1..]);
    }
  }

  /** An event is dispatched exactly when the body holds a non-empty
      `recommended_tags` array from which some name was extracted, and it carries
      those names. */
  lemma CaptureDispatches(data: JsValue)
    ensures CaptureResponse(data).Dispatched? <==>
              && data.Obj?
              && "recommended_tags" in data.props
              && data.props["recommended_tags"].Arr?
              && |data.props["recommended_tags"].items| > 0
              && Extract(data.props["recommended_tags"].items) != []
    ensures CaptureResponse(data).Dispatched? ==>
              CaptureResponse(data).names == Extract(data.props["recommended_tags"].items)
    ensures !CaptureResponse(data).Failed?
  {
    if data.Obj? && "recommended_tags" in data.props && data.props["recommended_tags"].Arr? {
      var tags := data.props["recommended_tags"].items;
      assert Get(data, "recommended_tags") == Some(Arr(tags));
      var names := Extract(tags);
      if names != [] {
        assert |tags| > 0;
        assert CaptureResponse(data) == Dispatched(names);
      }
    } else if Truthy(data) {
      assert !Get(data, "recommended_tags").value.Arr?;
    }
  }

  /** As written and corrected agree on every response whose recommendations
      hold no `null`; with a `null` among non-empty recommendations the script
      dispatches nothing. */
  lemma CaptureAsWrittenComparison(data: JsValue)
    requires data.Obj? && "recommended_tags" in data.props && data.props["recommended_tags"].Arr?
    ensures Null !in data.props["recommended_tags"].items ==> CaptureAsWritten(data) == CaptureResponse(data)
    ensures Null in data.props["recommended_tags"].items ==> CaptureAsWritten(data) == Failed
  {
    var tags := data.props["recommended_tags"].items;
    if Null in tags {
      ExtractAsWrittenWithNull(tags);
    } else {
      ExtractAsWrittenWithoutNull(tags);
    }
  }

  /** A response recommending `[null, "rock"]`: the script as written dispatches
      nothing, while "rock" was evidently meant to be captured. */
  lemma NullEntryDropsBatch()
    ensures var data := Obj(map["recommended_tags" := Arr([Null, Str("rock")])]);
            && CaptureAsWritten(data) == Failed
            && CaptureResponse(data) == Dispatched([Str("rock")])
  {
    var tags := [Null, Str("rock")];
    assert tags[1..] == [Str("rock")];
    assert Extract(tags) == [Str("rock")] by {
      assert Extract([Str("rock")]) == [Str("rock")] + Extract([]);
    }
  }
}
