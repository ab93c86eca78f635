/** validate_data of lab_3/lr3.py (lines 80-93): one row's ten columns, each
    bound to the answer of one field validator. The binding is the source's
    own: the `occupation` column is tested by the identifier validator and
    the `issn` column by the ISBN validator. */
module Rows {
  import opened Text
  import opened Regex
  import opened Patterns
  import opened Shapes
  import opened Validators

  /** The ten columns of a dataset row the validator reads, as text. */
  datatype Row = Row(
    telephone: string,
    height: string,
    inn: string,
    identifier: string,
    occupation: string,
    latitude: string,
    bloodType: string,
    issn: string,
    uuid: string,
    date: string)

  /** The keys of the result of validate_data. */
  const FIELD_NAMES: set<string> :=
    {"telephone", "height", "inn", "identifier", "occupation", "latitude", "blood_type", "issn", "uuid", "date"}

  /** The entry validate_data computes under `field`: the validator the
      source binds to that key, applied to its column. */
  function BoundCheck(data: Row, field: string): bool
  {
    if field == "telephone" then ValidateTelephone(data.telephone)
    else if field == "height" then ValidateHeight(data.height)
    else if field == "inn" then ValidateInn(data.inn)
    else if field == "identifier" then ValidateIdentifier(data.identifier)
    else if field == "occupation" then ValidateIdentifier(data.occupation)
    else if field == "latitude" then ValidateLatitude(data.latitude)
    else if field == "blood_type" then ValidateBloodType(data.bloodType)
    else if field == "issn" then ValidateIsbn(data.issn)
    else if field == "uuid" then ValidateUuid(data.uuid)
    else ValidateDate(data.date)
  }

  /** validate_data */
  function ValidateData(data: Row): (results: map<string, bool>)
    ensures results.Keys == FIELD_NAMES
    ensures results["telephone"] == ValidateTelephone(data.telephone)
    ensures results["height"] == ValidateHeight(data.height)
    ensures results["inn"] == ValidateInn(data.inn)
    ensures results["identifier"] == ValidateIdentifier(data.identifier)
    ensures results["occupation"] == ValidateIdentifier(data.occupation)
    ensures results["latitude"] == ValidateLatitude(data.latitude)
    ensures results["blood_type"] == ValidateBloodType(data.bloodType)
    ensures results["issn"] == ValidateIsbn(data.issn)
    ensures results["uuid"] == ValidateUuid(data.uuid)
    ensures results["date"] == ValidateDate(data.date)
  {
    map field | field in FIELD_NAMES :: BoundCheck(data, field)
  }

  /** `any(not valid for valid in result.values())` */
  predicate HasInvalid(results: map<string, bool>)
  {
    exists key | key in results :: !results[key]
  }

  /** All ten bound validators accept. */
  predicate AllFieldsAccepted(data: Row)
  {
    ValidateTelephone(data.telephone) && ValidateHeight(data.height) && ValidateInn(data.inn)
    && ValidateIdentifier(data.identifier) && ValidateIdentifier(data.occupation)
    && ValidateLatitude(data.latitude) && ValidateBloodType(data.bloodType)
    && ValidateIsbn(data.issn) && ValidateUuid(data.uuid) && ValidateDate(data.date)
  }

  /** A row is reported exactly when one of its bound validators rejects. */
  lemma RowErrorIffFieldRejected(data: Row)
    ensures HasInvalid(ValidateData(data)) <==> !AllFieldsAccepted(data)
  {
    var results := ValidateData(data);
    if !AllFieldsAccepted(data) {
      var key :=
        if !ValidateTelephone(data.telephone) then "telephone"
        else if !ValidateHeight(data.height) then "height"
        else if !ValidateInn(data.inn) then "inn"
        else if !ValidateIdentifier(data.identifier) then "identifier"
        else if !ValidateIdentifier(data.occupation) then "occupation"
        else if !ValidateLatitude(data.latitude) then "latitude"
        else if !ValidateBloodType(data.bloodType) then "blood_type"
        else if !ValidateIsbn(data.issn) then "issn"
        else if !ValidateUuid(data.uuid) then "uuid"
        else "date";
      assert key in results && !results[key];
    }
  }

  /** No occupation is an identifier: identifiers start with a digit, and an
      occupation has no digits. */
  lemma OccupationIsNeverIdentifier(s: string)
    requires ValidateOccupation(s)
    ensures !ValidateIdentifier(s)
  {
    assert |s| >= 1 && IsOccupationChar(s[0]);
  }

  /** Because of the binding, the `occupation` entry is false for every
      value the occupation validator accepts, and such a row is always
      reported. */
  lemma ValidOccupationIsReported(data: Row)
    requires ValidateOccupation(data.occupation)
    ensures !ValidateData(data)["occupation"]
    ensures HasInvalid(ValidateData(data))
  {
    OccupationIsNeverIdentifier(data.occupation);
    assert "occupation" in ValidateData(data);
  }

  /** No ISSN is an ISBN: an ISSN has 9 characters, an ISBN 13 or 17. */
  lemma IssnIsNeverIsbn(s: string)
    requires ValidateIssn(s)
    ensures !ValidateIsbn(s)
  {
  }

  /** Because of the binding, the `issn` entry is false for every value the
      ISSN validator accepts, and such a row is always reported. */
  lemma ValidIssnIsReported(data: Row)
    requires ValidateIssn(data.issn)
    ensures !ValidateData(data)["issn"]
    ensures HasInvalid(ValidateData(data))
  {
    IssnIsNeverIsbn(data.issn);
    assert "issn" in ValidateData(data);
  }
}
