/** The validation pass of read_and_validate_csv in lab_3/lr3.py (lines
    112-137, with the checksum and result record of lines 140-143): every
    row is validated in order, and the position of every row with a false
    entry is recorded. */
module Dataset {
  import opened Rows

  /** The dictionary serialize_result writes: the variant and the checksum. */
  datatype ResultRecord = ResultRecord(variant: string, checksum: string)

  predicate StrictlyAscending(xs: seq<nat>)
  {
    forall i, j :: 0 <= i < j < |xs| ==> xs[i] < xs[j]
  }

  /** The positions of the rejected rows, in order: the reference the loop
      is proved against. */
  function ErrorIndices(results: seq<map<string, bool>>): seq<nat>
    decreases |results|
  {
    if |results| == 0 then []
    else
      var last := |results| - 1;
      ErrorIndices(results[..last]) + (if HasInvalid(results[last]) then [last] else [])
  }

  /** Validating one more row adds its position exactly when it is rejected. */
  lemma ErrorIndicesAppend(results: seq<map<string, bool>>, result: map<string, bool>)
    ensures ErrorIndices(results + [result]) == ErrorIndices(results) + (if HasInvalid(result) then [|results|] else [])
  {
    assert (results + [result])[..|results|] == results;
  }

  /** ErrorIndices is strictly ascending and holds exactly the positions of
      the results with a false entry. */
  lemma {:induction false} ErrorIndicesSpec(results: seq<map<string, bool>>)
    ensures StrictlyAscending(ErrorIndices(results))
    ensures forall i :: 0 <= i < |ErrorIndices(results)| ==> ErrorIndices(results)[i] < |results|
    ensures forall i :: i in ErrorIndices(results) <==> 0 <= i < |results| && HasInvalid(results[i])
    decreases |results|
  {
    if |results| > 0 {
      var last := |results| - 1;
      var prefix := results[..last];
      ErrorIndicesSpec(prefix);
      assert forall i :: 0 <= i < last ==> prefix[i] == results[i];
    }
  }

  /** Three rows, the first accepted and the other two rejected, are
      reported as rows 1 and 2. */
  lemma ErrorIndicesOfThreeRows(r0: map<string, bool>, r1: map<string, bool>, r2: map<string, bool>)
    requires !HasInvalid(r0) && HasInvalid(r1) && HasInvalid(r2)
    ensures ErrorIndices([r0, r1, r2]) == [1, 2]
  {
    ErrorIndicesAppend([], r0);
    ErrorIndicesAppend([r0], r1);
    ErrorIndicesAppend([r0, r1], r2);
    assert [r0, r1] + [r2] == [r0, r1, r2];
  }

  /** The loop of read_and_validate_csv (lines 116-137): validate each row
      in turn, append its result, and append its position when the result
      has a false entry. It is stated for any row validator `validate`, so
      that its proof does not depend on what the validators compute. */
  method ValidateRows(rows: seq<Row>, validate: Row -> map<string, bool>)
    returns (validationResults: seq<map<string, bool>>, errorRows: seq<nat>)
    ensures |validationResults| == |rows|
    ensures forall i :: 0 <= i < |rows| ==> validationResults[i] == validate(rows[i])
    ensures errorRows == ErrorIndices(validationResults)
  {
    validationResults := [];
    errorRows := [];
    var index := 0;
    while index < |rows|
      invariant 0 <= index <= |rows|
      invariant |validationResults| == index
      invariant forall i :: 0 <= i < index ==> validationResults[i] == validate(rows[i])
      invariant errorRows == ErrorIndices(validationResults)
    {
      var result := validate(rows[index]);
      ErrorIndicesAppend(validationResults, result);
      validationResults := validationResults + [result];
      if HasInvalid(result) {
        errorRows := errorRows + [index];
      }
      index := index + 1;
    }
  }

  /** read_and_validate_csv after parsing: `rows` in the order iterrows
      yields them, numbered 0, 1, ... as pandas' default index numbers
      them. `checksum` stands for calculate_checksum; the record is what
      serialize_result would write. */
  method ReadAndValidateCsv(rows: seq<Row>, variantNumber: string, checksum: seq<nat> -> string)
    returns (validationResults: seq<map<string, bool>>, errorRows: seq<nat>, record: ResultRecord)
    ensures |validationResults| == |rows|
    ensures forall i :: 0 <= i < |rows| ==> validationResults[i] == ValidateData(rows[i])
    ensures StrictlyAscending(errorRows)
    ensures forall i :: i in errorRows <==> 0 <= i < |rows| && HasInvalid(validationResults[i])
    ensures errorRows == ErrorIndices(validationResults)
    ensures record == ResultRecord(variantNumber, checksum(errorRows))
  {
    validationResults, errorRows := ValidateRows(rows, ValidateData);
    ErrorIndicesSpec(validationResults);
    record := ResultRecord(variantNumber, checksum(errorRows));
  }
}
