// Rows of samples.
module ImageRows {

  type Row = seq<int>

  // The image goes on above and below with its first and last row.
  function RowAt(image: seq<Row>, i: int): Row
    requires image != []
  {
    if i < 0 then image[0] else if i < |image| then image[i] else image[|image| - 1]
  }
}
