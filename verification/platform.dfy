/** The parts of the .NET runtime the validator leans on but whose behaviour
    is not part of this model: Unicode character classes, culture-dependent
    case mapping and URI parsing. They are passed around as a record of
    functions, so every property proved here holds for any implementation of
    them. The module also names the exceptions the validator can raise. */
module Platform {

  datatype Runtime = Runtime(
    /** `char.IsLetter` */
    isLetter: char -> bool,
    /** `char.IsWhiteSpace`, as used by `String.Trim()` */
    isWhiteSpace: char -> bool,
    /** the per-character folding behind `StringComparison.OrdinalIgnoreCase` */
    foldCase: char -> char,
    /** `String.ToLower()` */
    toLower: string -> string,
    /** `Uri.TryCreate(s, UriKind.Absolute, out u) && u.Scheme == Uri.UriSchemeHttp` */
    isHttpUri: string -> bool)

  /** The exceptions the modelled code can throw. */
  datatype Fault =
    | IndexOutOfRange        // `str[i]` or `array[1]` past the end
    | ArgumentOutOfRange     // `Substring` with a negative length
    | ArgumentEmpty          // `String.Replace` with an empty `oldValue`
    | NoMatchingResourceSet  // `.First(...)` over the translated resource names found nothing
    | NullArgument           // `GetString(null)` for a key that is not a string
    | NullReference          // `str.Length` on the `null` a non-string value becomes

  /** True iff no character of `s` is a letter (`s.All(c => !char.IsLetter(c))`). */
  predicate LetterFree(rt: Runtime, s: string) {
    forall k :: 0 <= k < |s| ==> !rt.isLetter(s[k])
  }

  /** `a.Equals(b, StringComparison.OrdinalIgnoreCase)` */
  predicate EqualsIgnoreCase(rt: Runtime, a: string, b: string) {
    |a| == |b| && forall k :: 0 <= k < |a| ==> rt.foldCase(a[k]) == rt.foldCase(b[k])
  }
}
