/**
 * The records the helper's own HTTP API exchanges with its callers: Group
 * and Variable, with Variable's maskability rule and key-based identity.
 */
module ApiModel {
  import opened JavaLang
  import opened GitLabModel

  /** Group: a projection of a membership exposed to the caller. */
  datatype Group = Group(id: int, name: string, permission: AccessLevel)

  /**
   * Variable: the form parameters of a request, or a variable returned to
   * the caller.  A missing form parameter is null.
   */
  datatype Variable = Variable(key: JString, value: JString, variableType: JString,
                               isProtected: Option<bool>, isMasked: Option<bool>,
                               environmentScope: JString)

  /** One character of the class [A-Za-z0-9@:.~]. */
  predicate IsMaskableChar(c: char) {
    ('A' <= c <= 'Z') || ('a' <= c <= 'z') || ('0' <= c <= '9') || c == '@' || c == ':' || c == '.' || c == '~'
  }

  /**
   * MASKABLE_VARIABLE.matcher(s).matches() for ^[A-Za-z0-9@:.~]{8,}$: the
   * whole string is at least eight characters of the class.
   */
  predicate MatchesMaskablePattern(s: string) {
    |s| >= 8 && forall i :: 0 <= i < |s| ==> IsMaskableChar(s[i])
  }

  /** isValueMaskable */
  predicate IsValueMaskable(value: JString) {
    HasText(value) && MatchesMaskablePattern(value.value)
  }

  /** The hasText guard adds nothing to the pattern: maskable means non-null, long enough, all in the class. */
  lemma MaskableIffPattern(value: JString)
    ensures IsValueMaskable(value) <==>
              value.Some? && |value.value| >= 8 && forall i :: 0 <= i < |value.value| ==> IsMaskableChar(value.value[i])
  {
    if value.Some? && MatchesMaskablePattern(value.value) {
      assert !IsWhitespace(value.value[0]);
    }
  }

  /** null, empty and whitespace-containing values are never maskable. */
  lemma NotMaskable(value: JString)
    requires value == None || value == Some("") || exists i :: 0 <= i < |value.value| && IsWhitespace(value.value[i])
    ensures !IsValueMaskable(value)
  {
  }

  lemma MaskableExamples()
    ensures !IsValueMaskable(Some("ab"))
    ensures IsValueMaskable(Some("ABCDEFGH"))
  {
    MaskableIffPattern(Some("ABCDEFGH"));
  }

  /** Appending characters of the class keeps a maskable value maskable. */
  lemma MaskableUnderAppend(s: string, t: string)
    requires IsValueMaskable(Some(s))
    requires forall i :: 0 <= i < |t| ==> IsMaskableChar(t[i])
    ensures IsValueMaskable(Some(s + t))
  {
    MaskableIffPattern(Some(s));
    MaskableIffPattern(Some(s + t));
  }

  /** equals: Objects.equals on the keys (two null keys are equal), all else ignored. */
  predicate VariableEquals(a: Variable, b: Variable) {
    a.key == b.key
  }

  /** hashCode: the key's String.hashCode, or 0 for a null key. */
  function VariableHashCode(v: Variable): (h: int)
    ensures v.key == None ==> h == 0
  {
    if v.key.Some? then StringHashCode(v.key.value) else 0
  }

  /** equals is an equivalence that ignores everything but the key, and hashCode agrees with it. */
  lemma EqualsAndHashCode(a: Variable, b: Variable, c: Variable)
    ensures VariableEquals(a, a)
    ensures VariableEquals(a, b) ==> VariableEquals(b, a)
    ensures VariableEquals(a, b) && VariableEquals(b, c) ==> VariableEquals(a, c)
    ensures VariableEquals(a, b) ==> VariableHashCode(a) == VariableHashCode(b)
    ensures VariableEquals(a, b) <==> a.key == b.key
  {
  }

  /** The Variable the controller returns for an upstream GLVariable. */
  function FromGLVariable(v: GLVariable): (r: Variable)
    ensures r.key == Some(v.key) && r.value == Some(v.value)
  {
    Variable(Some(v.key), Some(v.value), Some(v.variableType), Some(v.isProtected), Some(v.isMasked),
             Some(v.environmentScope))
  }
}
