/** The names of request methods and versions, spelled out by the numbers that http.h gives them. */
module Names {
  function MethodName(verb: nat): string
  {
    if verb == 0 then "GET" else if verb == 1 then "HEAD" else if verb == 2 then "POST"
    else if verb == 3 then "PUT" else if verb == 4 then "DELETE" else if verb == 5 then "CONNECT"
    else if verb == 6 then "OPTIONS" else if verb == 7 then "TRACE" else "PATCH"
  }

  function VersionName(version: nat): string
  {
    if version == 0 then "HTTP/1.0" else if version == 1 then "HTTP/1.1" else "HTTP/2.0"
  }
}
