/** The text and colour decisions of showFlashMessage; building and animating the
    element is page work outside the model. */
module FlashMessages {

  /** Longest message shown in full. */
  const MAX_FLASH_LENGTH: nat := 60
  /** Characters kept in front of the ellipsis when a message is cut. */
  const KEPT_PREFIX: nat := 57
  const ELLIPSIS: string := "..."

  /** A message longer than 60 characters is cut to its first 57 characters and "...". */
  function Truncate(message: string): (r: string)
    ensures |r| <= MAX_FLASH_LENGTH
    ensures |message| <= MAX_FLASH_LENGTH ==> r == message
    ensures |message| > MAX_FLASH_LENGTH ==>
      |r| == MAX_FLASH_LENGTH && r[..KEPT_PREFIX] == message[..KEPT_PREFIX] && r[KEPT_PREFIX..] == ELLIPSIS
  {
    if |message| > MAX_FLASH_LENGTH then message[..KEPT_PREFIX] + ELLIPSIS else message
  }

  /** Cutting a cut message changes nothing. */
  lemma TruncateIsIdempotent(message: string)
    ensures Truncate(Truncate(message)) == Truncate(message)
  {
  }

  datatype Style = Style(background: string, icon: string)

  predicate IsKnownCategory(category: string)
  {
    category == "success" || category == "error" || category == "warning"
  }

  /** The `switch (category)`: green tick, red cross, orange "!", and blue "i" for any
      other category. */
  function CategoryStyle(category: string): (s: Style)
    ensures s.icon == "i" <==> !IsKnownCategory(category)
    ensures !IsKnownCategory(category) ==> s == Style("#007AFF", "i")
    ensures category == "success" ==> s.icon == "\U{2713}"
    ensures category == "error" ==> s.icon == "\U{2715}"
    ensures category == "warning" ==> s.icon == "!"
  {
    match category
    case "success" => Style("#34C759", "\U{2713}")
    case "error" => Style("#FF3B30", "\U{2715}")
    case "warning" => Style("#FF9500", "!")
    case _ => Style("#007AFF", "i")
  }

  /** A message as it appears on the page. */
  datatype Flash = Flash(style: Style, text: string)

  /** showFlashMessage(message, category), without the page effects. */
  function ShowFlashMessage(message: string, category: string): (f: Flash)
    ensures |f.text| <= MAX_FLASH_LENGTH && Truncate(f.text) == f.text
    ensures |message| <= MAX_FLASH_LENGTH ==> f.text == message
    ensures |message| > MAX_FLASH_LENGTH ==> f.text == message[..KEPT_PREFIX] + ELLIPSIS
    ensures f.style == CategoryStyle(category)
    ensures f.style.icon == "i" <==> !IsKnownCategory(category)
  {
    TruncateIsIdempotent(message);
    Flash(CategoryStyle(category), Truncate(message))
  }
}
