/** The failures an operation of the service can report. */
module Exceptions {

  datatype Error =
    | NoCourierInDB        // no courier with the requested id
    | NoCouriersInDB       // the courier table is empty
    | NoFreeCouriers       // no courier of the district is without an active order
    | NoDistrictInDB       // no district with the requested name
    | NoOrderInDB          // no order with the requested id
    | OrderIsAlreadyCompleted
    | RowsRejected       // the new rows were refused: a district name repeated, or one district listed twice
    | NoneAccess           // an attribute or arithmetic step met a missing (NULL) value
}
