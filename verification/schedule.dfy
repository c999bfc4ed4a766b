/** `learning_rate` in src/train.rs: the step schedule the trainer sets
    at the start of each epoch. Rates are exact decimals here; the program
    uses the nearest `f64`. */
module Schedule {

  /** A tenfold drop after each of the first three epochs, then constant. */
  function LearningRate(epoch: int): (r: real)
    ensures 0.000001 <= r <= 0.001
    ensures epoch < 1 <==> r == 0.001
    ensures epoch >= 3 <==> r == 0.000001
  {
    if epoch < 1 then 0.001
    else if epoch < 2 then 0.0001
    else if epoch < 3 then 0.00001
    else 0.000001
  }

  /** The rate never rises from one epoch to a later one. */
  lemma LearningRateNonIncreasing(a: int, b: int)
    requires a <= b
    ensures LearningRate(b) <= LearningRate(a)
  {
  }

  /** Each of the three steps divides the rate by exactly ten. */
  lemma LearningRateDecades(e: int)
    requires 0 <= e < 3
    ensures LearningRate(e + 1) * 10.0 == LearningRate(e)
  {
  }

  /** The two middle epochs. */
  lemma LearningRateMiddleEpochs()
    ensures LearningRate(1) == 0.0001
    ensures LearningRate(2) == 0.00001
  {
  }
}
