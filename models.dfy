/** The translation record exchanged between a scan, the user and an update. */
module Models {

  /**
   * One entry flagged for translation. `translatedText` is empty until the
   * user fills it in (an unset string and an empty one are the same here);
   * an absent comment is the empty string. (fileName, id) identifies the
   * resource the record came from.
   */
  datatype Translation = Translation(
    id: string,
    fileName: string,
    originalText: string,
    translatedText: string,
    comment: string)
}
