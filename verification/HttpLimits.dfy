/** Sizes fixed in includes/http.h. */
module HttpLimits {

  const MAX_BUFFR: nat := 8192
  const MAX_HEADERS: nat := 50
}
