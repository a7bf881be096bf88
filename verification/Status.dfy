/**
 status.h: error numbers. The source answers them negated.
 */
module Status {
  const EIO := 1
  const EINVARG := 2
  const ENOMEM := 3

  lemma Numbers()
    ensures EIO == 1 && EINVARG == 2 && ENOMEM == 3
  {
  }
}
