/** String types that the evaluation schemas share (app/schemas/evaluation.py). */
module SchemaTypes {
  predicate LengthWithin(text: string, low: nat, high: nat) { low <= |text| <= high }

  predicate IsLowerOrDigit(c: char) { 'a' <= c <= 'z' || '0' <= c <= '9' }
  predicate IsVersionStart(c: char) { IsLowerOrDigit(c) || 'A' <= c <= 'Z' }
  predicate IsPunctuation(c: char) { c == '.' || c == '_' || c == '-' }

  /** `SafeIdentifier`. */
  predicate IsIdentifier(text: string) {
    && LengthWithin(text, 3, 100) && IsLowerOrDigit(text[0])
    && forall i :: 0 <= i < |text| ==> IsLowerOrDigit(text[i]) || IsPunctuation(text[i])
  }

  /** `VersionLabel`. */
  predicate IsVersion(text: string) {
    && LengthWithin(text, 1, 128) && IsVersionStart(text[0])
    && forall i :: 0 <= i < |text| ==> IsVersionStart(text[i]) || IsPunctuation(text[i])
  }

  /** `EvaluationSourceGroup`. */
  predicate IsSourceGroup(text: string) {
    text in {"synthetic_engineering_regression", "cross_border_core", "complex_document_diagnostics",
             "security_acl_version"}
  }
}
