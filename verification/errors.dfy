/** The failures that abort an ETL run. In the source each is a raised
    exception whose text reaches the caller; here each is a value. */
module Errors {

  datatype Error =
    | InvalidRequest                   // the request carried no query name
    | UnknownQuery(name: string)       // the name is not a key of the query catalog
    | MissingEndpoint                  // the AMC endpoint is not configured
    | AuthFailure                      // the token endpoint answered with a status other than 200
    | MalformedAuthResponse            // the token response held no access token
    | ExtractionFailure(body: string)  // the query endpoint answered with a status other than 200
    | MalformedCsv                     // the extracted text could not be read as a table
    | MalformedDate(column: string)    // a value in a date column could not be parsed
    | LoadFailure(cause: string)       // connecting to or writing into the warehouse failed
}
