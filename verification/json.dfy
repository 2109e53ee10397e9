/** The typed values `cJSON_GetObjectItemCaseSensitive` hands the config readers. */
module Json {
  import opened CStrings

  /** A looked-up member: a string (its `valuestring`), a number (its
      `valueint`), or anything else, including a missing member. */
  datatype Value = JString(str: CString) | JNumber(valueint: int) | JOther
}
