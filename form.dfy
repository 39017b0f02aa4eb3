/** The entry form: a record edited one field at a time, the per-field
    validator run on each change, and a submit that hands the record to the
    store's append and resets the form. */
module EntryForm {
  import opened Entries
  import opened Validation
  import opened RecordStore

  const HomeCountry := "Nepal"

  /** The properties of the form's record. */
  const FormFields := {NameField, EmailField, PhoneField, DobField, CityField,
                       DistrictField, ProvinceField, CountryField, PictureField, CountriesField}

  /** The record the form starts with and returns to after a submit. */
  function BlankRecord(): (r: Entry)
    ensures r.Keys == FormFields
    ensures forall k :: k in r ==> r[k] == Text(if k == CountryField then HomeCountry else "")
  {
    map[NameField := Text(""), EmailField := Text(""), PhoneField := Text(""), DobField := Text(""),
        CityField := Text(""), DistrictField := Text(""), ProvinceField := Text(""),
        CountryField := Text(HomeCountry), PictureField := Text(""), CountriesField := Text("")]
  }

  /** What submit hands to the store: the form's record, whose truthy picture
      slot is first overwritten with the reader's data URI `read`. When the slot
      is truthy and reading fails (`read` is `None`), the awaited read rejects
      and nothing is handed on. */
  function Submission(data: Entry, read: Option<string>): (r: Option<Entry>)
    ensures !Truthy(data, PictureField) ==> r == Some(data)
    ensures Truthy(data, PictureField) ==> (r.Some? <==> read.Some?)
    // Only the picture slot can differ from the form's record.
    ensures r.Some? ==> r.value.Keys == data.Keys
    ensures r.Some? ==> forall k :: k in data && k != PictureField ==> r.value[k] == data[k]
    ensures r.Some? && Truthy(data, PictureField) ==> r.value[PictureField] == Text(read.value)
  {
    if !Truthy(data, PictureField) then Some(data)
    else if read.None? then None
    else Some(data[PictureField := Text(read.value)])
  }

  /** `validateForm()` is called with no field name, so the submit gate lets
      every record through, a record with empty required fields included. */
  lemma SubmitGateAlwaysOpen(e: Entry)
    ensures Validate(e, None) == Verdict(true, map[])
  {
  }

  /** The validator sees the record before the change: typing the first
      character of a name reports the name as missing, although the name
      about to be stored is not empty. */
  lemma ValidationSeesPreviousValue()
    ensures Validate(BlankRecord(), Some(NameField)).errors == map[NameField := NameRequired]
    ensures Validate(BlankRecord()[NameField := Text("R")], Some(NameField)).valid
  {
    assert !Truthy(BlankRecord(), NameField);
  }

  class Form {
    /** The application's store, whose append the form calls. */
    const store: Store
    var formData: Entry
    var errors: map<string, string>

    constructor (store: Store)
      ensures this.store == store
      ensures formData == BlankRecord() && errors == map[]
    {
      this.store := store;
      formData := BlankRecord();
      errors := map[];
    }

    /** The picture input writes the chosen File object into the record in place. */
    method SetProfilePicture(f: File)
      modifies this
      ensures formData == old(formData)[PictureField := Upload(f)]
      ensures errors == old(errors)
    {
      formData := formData[PictureField := Upload(f)];
    }

    /** `handleChange`: validate the field as it was before this change, then
        replace the record by one whose field `name` holds `value`. */
    method HandleChange(name: string, value: string)
      modifies this
      ensures errors == Validate(old(formData), Some(name)).errors
      ensures formData == old(formData)[name := Text(value)]
    {
      errors := Validate(formData, Some(name)).errors;
      formData := formData[name := Text(value)];
    }

    /** `clearForm`. */
    method ClearForm()
      modifies this
      ensures formData == BlankRecord()
      ensures errors == old(errors)
    {
      formData := BlankRecord();
    }

    /** `handleSubmit`. `read` is the outcome of reading the file in the picture
        slot as a data URI. On success the store's append runs once with the
        submitted record and the form is reset; when the read fails nothing is
        appended and the record stays. */
    method HandleSubmit(read: Option<string>) returns (added: bool)
      requires store.Valid()
      modifies this, store
      ensures store.Valid()
      ensures errors == map[]
      ensures added <==> Submission(old(formData), read).Some?
      ensures added ==> store.entries == old(store.entries) + [Submission(old(formData), read).value]
      ensures added ==> store.stored == Some(store.entries)
      ensures added ==> formData == BlankRecord()
      ensures !added ==> store.entries == old(store.entries) && store.stored == old(store.stored)
      ensures !added ==> formData == old(formData)
    {
      var verdict := Validate(formData, None);
      errors := verdict.errors;
      added := false;
      if verdict.valid {
        var submitted := Submission(formData, read);
        if submitted.Some? {
          formData := submitted.value;
          store.Add(formData);
          ClearForm();
          added := true;
        }
      }
    }
  }
}
