/** The registry's records as the application holds them: plain objects whose
    properties are read and written by name. */
module Entries {

  datatype Option<+T> = None | Some(value: T)

  /** A file picked in a file input, as far as the application looks at it:
      its name and the MIME type the browser reports for it. */
  datatype File = File(name: string, mimeType: string)

  /** The value of one property of an entry. Every property is text, except that
      the entry form parks the picked File object in the picture slot until it
      is encoded on submit. */
  datatype Value = Text(text: string) | Upload(file: File)

  /** An entry: property name to value. A name that is not a key reads as `undefined`. */
  type Entry = map<string, Value>

  const NameField := "name"
  const EmailField := "email"
  const PhoneField := "phoneNumber"
  const DobField := "dob"
  const CityField := "city"
  const DistrictField := "district"
  const ProvinceField := "province"
  const CountryField := "country"
  const PictureField := "profilePicture"
  const CountriesField := "countries"

  /** JavaScript truthiness of `e[key]`: `undefined` and "" are falsy, any other
      string and any File object are truthy. */
  predicate Truthy(e: Entry, key: string)
    // Truthy exactly when the property is there and does not print as "".
    ensures Truthy(e, key) <==> key in e && ToText(e[key]) != ""
  {
    key in e && match e[key] case Text(s) => s != "" case Upload(_) => true
  }

  /** `value.toString()`: a string is itself, a File object prints as "[object File]". */
  function ToText(v: Value): (r: string)
    ensures v.Text? ==> r == v.text
    // Only the empty string prints as "".
    ensures r == "" ==> v == Text("")
  {
    match v
    case Text(s) => s
    case Upload(_) => "[object File]"
  }
}
