/** The flag parser of `src/main.rs`. */
module Cli {
  import opened Results

  /** `std::str::ParseBoolError`, which carries no detail. */
  datatype ParseBoolError = ParseBoolError

  /** `<bool as FromStr>::from_str`: exactly `"true"` and `"false"`, case included. */
  function BoolFromStr(s: string): (r: Result<bool, ParseBoolError>)
    ensures r.Ok? <==> s == "true" || s == "false"
    ensures r.Ok? ==> (r.value <==> s == "true")
  {
    if s == "true" then Ok(true)
    else if s == "false" then Ok(false)
    else Err(ParseBoolError)
  }

  /** `parse_bool`: `"1"` and `"0"` besides the two words `from_str` knows. */
  function ParseBool(v: string): (r: Result<bool, ParseBoolError>)
    ensures r == Ok(true) <==> v == "1" || v == "true"
    ensures r == Ok(false) <==> v == "0" || v == "false"
    ensures r.Err? <==> v != "1" && v != "0" && v != "true" && v != "false"
  {
    match v
    case "1" => Ok(true)
    case "0" => Ok(false)
    case _ => BoolFromStr(v)
  }
}
