/** Cutting a prompt that is too long for the model. */
module Prompt {
  import Utf8

  const NOTE: string := "\n\n[... Nachricht gek\U{fc}rzt, zu lang f\U{fc}r KI-Verarbeitung]"

  /** `truncate_prompt`: a prompt over the limit keeps its longest prefix of whole characters
      that fits, and the note comes on top of the limit. */
  method Truncate(prompt: string, maxBytes: nat) returns (r: string)
    ensures Utf8.Len(prompt) <= maxBytes ==> r == prompt
    ensures Utf8.Len(prompt) > maxBytes ==> exists k ::
      && 0 <= k < |prompt| && r == prompt[..k] + NOTE
      && forall j :: 0 <= j <= |prompt| ==> (Utf8.Len(prompt[..j]) <= maxBytes <==> j <= k)
  {
    hide Utf8.Encode, Utf8.EncodeChar;
    if Utf8.Len(prompt) <= maxBytes {
      return prompt;
    }
    var truncated, bytes, k := "", 0, 0;
    Utf8.NothingIsEmpty();
    assert prompt[..|prompt|] == prompt && prompt[..0] == "";
    while k < |prompt|
      invariant 0 <= k <= |prompt| && truncated == prompt[..k] && bytes == Utf8.Len(prompt[..k]) <= maxBytes
    {
      Utf8.NextWidth(prompt, k);
      var width := |Utf8.EncodeChar(prompt[k])|;
      if bytes + width > maxBytes {
        break;
      }
      bytes := bytes + width;
      truncated := truncated + [prompt[k]];
      k := k + 1;
    }
    forall j | 0 <= j <= |prompt|
      ensures Utf8.Len(prompt[..j]) <= maxBytes <==> j <= k
    {
      if j <= k {
        Utf8.Grows(prompt, j, k);
      } else {
        Utf8.Grows(prompt, k + 1, j);
      }
    }
    r := truncated + NOTE;
  }
}
