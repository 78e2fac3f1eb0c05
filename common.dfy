/** Small value types shared by every module of the model. */
module Common {

  /** A value that may be absent: JavaScript's `undefined`/`null`, or `NaN` for a number. */
  datatype Option<+T> = None | Some(value: T) {
    function GetOr(default: T): T {
      match this
      case Some(v) => v
      case None => default
    }
  }

  /** A computation that either yields a value or fails the way the source throws. */
  datatype Result<+T, +E> = Ok(value: T) | Err(error: E)

  /** The two display languages of the site. */
  datatype Lang = Ja | Ko

  /** The path segment and query spelling of a language: "ja" or "ko". */
  function LangCode(lang: Lang): (code: string)
    ensures |code| == 2
    ensures code == "ja" <==> lang == Ja
  {
    match lang
    case Ja => "ja"
    case Ko => "ko"
  }
}
