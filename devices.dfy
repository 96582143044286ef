/**
 * The `Device` model: the APNS device token, held in the `_token` column as
 * base 64 text and exposed as octets, its hexadecimal form for the APNS
 * client, and the platform guessed from the model name.
 */
module Devices {
  import opened Wrappers
  import opened Bytes
  import Base64
  import Hex

  datatype Platform = MacOS | IOS

  /** The model names that count as macOS hardware. */
  const MAC_MODEL_NAMES: seq<string> := ["iMac"]

  class Device {
    /** `model_name`, nullable. */
    var modelName: Option<string>
    /** The `_token` column: base 64 text, or None when no token is stored. */
    var storedToken: Option<string>

    constructor (modelName: Option<string>, storedToken: Option<string>)
      ensures this.modelName == modelName && this.storedToken == storedToken
    {
      this.modelName := modelName;
      this.storedToken := storedToken;
    }

    /** Reading `token`: None passes through, base 64 text is decoded. */
    function Token(): (r: Result<Option<seq<Byte>>, Base64.DecodeError>)
      reads this
      ensures r == Success(None) <==> storedToken.None?
      ensures storedToken.Some? ==> (r.Success? <==> Base64.Decode(storedToken.value).Success?)
      ensures storedToken.Some? && r.Success? ==> r.value == Some(Base64.Decode(storedToken.value).value)
    {
      match storedToken
      case None => Success(None)
      case Some(text) =>
        match Base64.Decode(text)
        case Success(b) => Success(Some(b))
        case Failure(e) => Failure(e)
    }

    /** Writing `token`: octets are stored base 64 encoded, None as None. */
    method SetToken(value: Option<seq<Byte>>)
      modifies this`storedToken
      ensures storedToken == if value.None? then None else Some(Base64.Encode(value.value))
      ensures Token() == Success(value)
      ensures HexToken() == Success(if value.None? then None else Some(Hex.Encode(value.value)))
    {
      match value
      case None =>
        storedToken := None;
      case Some(b) =>
        storedToken := Some(Base64.Encode(b));
        Base64.DecodeEncode(b);
    }

    /**
     * `hex_token`: None when no token is stored, otherwise the lowercase
     * hexadecimal text of the decoded token, two digits per octet.
     */
    function HexToken(): (r: Result<Option<string>, Base64.DecodeError>)
      reads this
      ensures r.Success? <==> Token().Success?
      ensures r.Success? ==> (r.value.None? <==> storedToken.None?)
      ensures r.Success? && r.value.Some? ==>
        && Token().value.Some?
        && |r.value.value| == 2 * |Token().value.value|
        && (forall i :: 0 <= i < |r.value.value| ==> Hex.IsLowerHexDigit(r.value.value[i]))
        && Hex.Decode(r.value.value) == Token().value
    {
      if storedToken.None? then Success(None)
      else
        match Token()
        case Success(t) =>
          var b := t.value;
          Hex.DecodeEncode(b);
          Success(Some(Hex.Encode(b)))
        case Failure(e) => Failure(e)
    }

    /** `platform`: macOS exactly when the model name is "iMac", iOS otherwise (None included). */
    function Platform(): (p: Platform)
      reads this
      ensures p == MacOS <==> modelName == Some("iMac")
    {
      if modelName.Some? && modelName.value in MAC_MODEL_NAMES then MacOS else IOS
    }
  }
}
