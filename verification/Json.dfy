/** Optional values, JSON documents, and the merge patch of section 2 of RFC 7386. */
module Options {
  datatype Option<+T> = None | Some(value: T)

  /** `o or ""` */
  function OrEmpty(o: Option<string>): string {
    if o.Some? then o.value else ""
  }
}

module Json {

  datatype Json =
    | Null
    | Bool(b: bool)
    | Num(n: int)
    | Str(s: string)
    | Arr(items: seq<Json>)
    | Obj(fields: map<string, Json>)

  /** The fields of an object, such as the `spec` of a custom resource. */
  type Spec = map<string, Json>

  function FieldsOf(j: Json): Spec {
    if j.Obj? then j.fields else map[]
  }

  /** What applying `patch` to `target` gives. A target that is missing is passed as Null. */
  function MergePatch(target: Json, patch: Json): Json
    decreases patch
  {
    if !patch.Obj? then patch else
    var t := FieldsOf(target);
    Obj(map k | k in t.Keys + patch.fields.Keys && !(k in patch.fields && patch.fields[k].Null?) ::
      if k in patch.fields then MergePatch(if k in t then t[k] else Null, patch.fields[k]) else t[k])
  }

  function MergeSpec(spec: Spec, patch: Spec): Spec {
    FieldsOf(MergePatch(Obj(spec), Obj(patch)))
  }

  /** `d.get(key)` */
  function Field(j: Json, key: string): Json {
    if key in FieldsOf(j) then FieldsOf(j)[key] else Null
  }

  /** `spec.get(key) or []` */
  function ListField(spec: Spec, key: string): seq<Json> {
    if key in spec && spec[key].Arr? then spec[key].items else []
  }

  /** Field by field: what the patch does not mention stays, null removes, and anything else is merged
      into what was there, or into nothing. A patch that is no object replaces the target. */
  lemma MergeByField(target: Json, patch: Json, k: string)
    ensures !patch.Obj? ==> MergePatch(target, patch) == patch
    ensures patch.Obj? ==>
              var after := MergePatch(target, patch);
              && after.Obj?
              && (k !in patch.fields ==> (k in after.fields <==> target.Obj? && k in target.fields)
                                         && (k in after.fields ==> after.fields[k] == target.fields[k]))
              && (k in patch.fields && patch.fields[k].Null? ==> k !in after.fields)
              && (k in patch.fields && !patch.fields[k].Null? ==>
                    k in after.fields && after.fields[k] == MergePatch(Field(target, k), patch.fields[k]))
  {
  }

  /** A patch with one list replaces that list, whole, and nothing else. */
  lemma MergeOneList(spec: Spec, key: string, items: seq<Json>)
    ensures var after := MergeSpec(spec, map[key := Arr(items)]);
            && ListField(after, key) == items
            && after == spec[key := Arr(items)]
  {
    assert MergePatch(if key in spec then spec[key] else Null, Arr(items)) == Arr(items);
  }

  // ---- When a patch leaves exactly the patch

  /** No object of `target` has a field that the object at the same place of `patch` lacks. */
  predicate NothingExtra(target: Json, patch: Json)
    decreases patch
  {
    patch.Obj? && target.Obj? ==>
      forall k | k in target.fields :: k in patch.fields && NothingExtra(target.fields[k], patch.fields[k])
  }

  predicate NullFree(j: Json) {
    && !j.Null?
    && (j.Obj? ==> forall k | k in j.fields :: NullFree(j.fields[k]))
  }

  /** Patching with a document without nulls gives back that document if and only if the target
      holds nothing that the document does not mention. */
  lemma {:induction false} MergeIsPatch(target: Json, patch: Json)
    requires NullFree(patch)
    ensures MergePatch(target, patch) == patch <==> NothingExtra(target, patch)
    decreases patch
  {
    if patch.Obj? {
      var t := FieldsOf(target);
      var merged := MergePatch(target, patch).fields;
      forall k | k in patch.fields
        ensures k in merged
        ensures merged[k] == patch.fields[k] <==> NothingExtra(if k in t then t[k] else Null, patch.fields[k])
      {
        MergeIsPatch(if k in t then t[k] else Null, patch.fields[k]);
      }
      if NothingExtra(target, patch) {
        assert merged.Keys == patch.fields.Keys;
        assert merged == patch.fields;
      } else {
        var k :| k in target.fields && !(k in patch.fields && NothingExtra(target.fields[k], patch.fields[k]));
        assert k in merged;
      }
    }
  }

  lemma {:induction false} NothingExtraInItself(j: Json)
    ensures NothingExtra(j, j)
  {
    if j.Obj? {
      forall k | k in j.fields ensures NothingExtra(j.fields[k], j.fields[k]) {
        NothingExtraInItself(j.fields[k]);
      }
    }
  }
}
