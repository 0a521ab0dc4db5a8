/**
 * The nonce marker of src/cli.py: a ciphertext carries its nonce as a
 * `[NONCE:<nonce>]` prefix, and extraction splits it off again at the first `]`.
 */
module NonceMarker {
  import opened Wrappers

  const Prefix: string := "[NONCE:"

  /** `_encode_with_nonce_marker`: `f"[NONCE:{nonce}]{payload}"`. */
  function Encode(nonce: string, payload: string): (r: string)
    ensures |r| == |Prefix| + |nonce| + 1 + |payload|
    ensures r[..|Prefix|] == Prefix && r[|Prefix| + |nonce|] == ']'
  {
    Prefix + nonce + "]" + payload
  }

  /** `str.startswith`. */
  predicate StartsWith(s: string, p: string)
  {
    |p| <= |s| && s[..|p|] == p
  }

  /** `str.find` for one character: the first position holding x, or None where Python gives -1. */
  function Find(s: string, x: char): (r: Option<nat>)
    ensures r.Some? ==> r.value < |s| && s[r.value] == x && x !in s[..r.value]
    ensures r.None? <==> x !in s
  {
    if s == [] then None
    else if s[0] == x then Some(0)
    else
      match Find(s[1..], x)
      case None => None
      case Some(k) =>
        assert s[..k + 1] == [s[0]] + s[1..][..k];
        Some(k + 1)
  }

  /** `_extract_nonce_from_prefixed`: the nonce and the rest, or None and the whole text. */
  function Extract(text: string): (r: (Option<string>, string))
  {
    if StartsWith(text, Prefix) then
      match Find(text, ']')
      case Some(end) =>
        assert end >= |Prefix|;
        (Some(text[|Prefix|..end]), text[end + 1..])
      case None => (None, text)
    else (None, text)
  }

  /** Extraction recovers nonce and payload whenever the nonce holds no `]`. */
  lemma ExtractEncode(nonce: string, payload: string)
    requires ']' !in nonce
    ensures Extract(Encode(nonce, payload)) == (Some(nonce), payload)
  {
    var t := Encode(nonce, payload);
    var end := |Prefix| + |nonce|;
    assert t[..end] == Prefix + nonce;
    assert ']' !in Prefix;
    assert t[..end + 1][..end] == t[..end];
    FirstOccurrence(t, ']', end);
    assert t[|Prefix|..end] == nonce;
    assert t[end + 1..] == payload;
  }

  /** Any position holding x with no x before it is where `Find` stops. */
  lemma FirstOccurrence(s: string, x: char, k: nat)
    requires k < |s| && s[k] == x && x !in s[..k]
    ensures Find(s, x) == Some(k)
  {
  }

  /** A nonce comes back exactly when the text starts with the marker and holds a `]`; otherwise the text is returned unchanged. */
  lemma ExtractFinds(text: string)
    ensures Extract(text).0.Some? <==> StartsWith(text, Prefix) && ']' in text
    ensures Extract(text).0.None? ==> Extract(text).1 == text
  {
  }

  /** Whatever extraction splits off re-encodes to the text it came from, and the nonce holds no `]`. */
  lemma EncodeExtract(text: string)
    requires Extract(text).0.Some?
    ensures ']' !in Extract(text).0.value
    ensures Encode(Extract(text).0.value, Extract(text).1) == text
  {
    var end := Find(text, ']').value;
    var nonce := text[|Prefix|..end];
    assert nonce == text[..end][|Prefix|..];
    assert text == text[..|Prefix|] + nonce + [text[end]] + text[end + 1..];
  }
}
