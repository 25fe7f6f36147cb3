/** Integer helpers shared by the paging of the alumni list and the
    latest-postings cut of the statistics. */
module Numbers {

  function Abs(x: int): nat { if x < 0 then -x else x }

  function Min(a: nat, b: nat): nat { if a < b then a else b }
}
