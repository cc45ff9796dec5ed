/** Where lib/sugarValidatorLib.js is evidently wrong, a member that depends
    on the defect takes the reading it follows: the code as written, or the
    code with the defect corrected. `validate` itself is the run as written. */
module Readings {
  datatype Reading = AsWritten | Intended
}
