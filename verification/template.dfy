/** `$input$` substitution (main.go, ShortenURL): every argument value and
    every header value of a shortener has each occurrence of the placeholder
    replaced, literally, by the URL being shortened. */
module Template {
  import opened Text

  const InputPlaceholder: string := "$input$"

  function Substitute(template: string, input: string): string
  {
    ReplaceAll(template, InputPlaceholder, input)
  }

  /** The substituted copy of a header or argument map: same keys, each value
      substituted on its own. */
  function SubstituteValues(m: map<string, string>, input: string): (r: map<string, string>)
    ensures r.Keys == m.Keys
  {
    map k | k in m :: Substitute(m[k], input)
  }

  /** What substitution does to one value: a value without the placeholder is
      kept; otherwise the text before the leftmost placeholder is kept, the
      placeholder becomes the input verbatim, and the rest is substituted in
      turn. The input is never scanned again. */
  lemma SubstituteLeftmost(template: string, input: string)
    ensures !Contains(template, InputPlaceholder) ==> Substitute(template, input) == template
    ensures Contains(template, InputPlaceholder) ==>
      var i := FirstOccurrence(template, InputPlaceholder).value;
      Substitute(template, input)
        == template[..i] + input + Substitute(template[i + |InputPlaceholder|..], input)
  {
    ReplaceAllLeftmost(template, InputPlaceholder, input);
  }

  /** A value that is exactly the placeholder becomes exactly the input, even
      an input that itself holds "$input$". */
  lemma SubstituteWholeValue(input: string)
    ensures Substitute(InputPlaceholder, input) == input
  {
    ReplaceAllWhole(InputPlaceholder, input);
  }

  /** Keys are kept; a value without the placeholder is carried over as it is,
      and a value that is the placeholder becomes the input. */
  lemma SubstituteValuesKeepsUntemplated(m: map<string, string>, input: string)
    ensures SubstituteValues(m, input).Keys == m.Keys
    ensures forall k :: k in m && !Contains(m[k], InputPlaceholder) ==>
      SubstituteValues(m, input)[k] == m[k]
    ensures forall k :: k in m && m[k] == InputPlaceholder ==>
      SubstituteValues(m, input)[k] == input
  {
    forall k | k in m && !Contains(m[k], InputPlaceholder)
      ensures SubstituteValues(m, input)[k] == m[k]
    {
      ReplaceAllAbsent(m[k], InputPlaceholder, input);
    }
    SubstituteWholeValue(input);
  }
}
