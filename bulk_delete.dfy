/** The `deleteMultiple` guard shared by AccountController and UserController:
    `$ids = $request->input('ids')`, a 400 unless it is a non-empty array, then
    `whereIn('id', $ids)->delete()`. */
module BulkDelete {
  /** The `ids` input: missing or null, a value that is not an array, or an array. */
  datatype IdsInput = NoIds | NotAList | IdList(ids: seq<nat>)

  /** `!$ids || !is_array($ids)`: an empty array is falsy, so it is rejected too. */
  predicate IdsRejected(input: IdsInput) { input.NoIds? || input.NotAList? || input.ids == [] }

  /** `whereIn('id', $ids)->delete()`: every listed row goes, unknown ids are
      ignored, the other rows stay as they were. */
  function WithoutIds<T>(rows: map<nat, T>, ids: seq<nat>): (r: map<nat, T>)
    ensures forall k :: k in r <==> k in rows && k !in ids
    ensures forall k | k in r :: r[k] == rows[k]
  {
    map k | k in rows && k !in ids :: rows[k]
  }

  datatype Deletion<T> = Deletion(status: int, rows: map<nat, T>)

  /** The guard and the delete; the caller's role gate comes before it. */
  function DeleteMultiple<T>(rows: map<nat, T>, input: IdsInput): (r: Deletion<T>)
    ensures r.status == 400 <==> IdsRejected(input)
    ensures r.status == 400 || r.status == 200
    ensures r.status == 400 ==> r.rows == rows
    ensures r.status == 200 ==> r.rows == WithoutIds(rows, input.ids)
  {
    if IdsRejected(input) then Deletion(400, rows) else Deletion(200, WithoutIds(rows, input.ids))
  }

  /** Deleting the same ids twice deletes nothing more the second time. */
  lemma DeleteMultipleIdempotent<T>(rows: map<nat, T>, input: IdsInput)
    ensures DeleteMultiple(DeleteMultiple(rows, input).rows, input).rows == DeleteMultiple(rows, input).rows
  {
    if !IdsRejected(input) {
      var once := WithoutIds(rows, input.ids);
      assert WithoutIds(once, input.ids) == once;
    }
  }
}
