/** A reader-writer lock as a value: who holds it shared and who holds it exclusively. */
module SharedMutex {

  datatype Mutex = Mutex(readers: set<nat>, writers: set<nat>) {
    predicate MayShare() { writers == {} }

    predicate MayExclude() { writers == {} && readers == {} }

    function Share(t: nat): Mutex { this.(readers := readers + {t}) }

    function Unshare(t: nat): Mutex { this.(readers := readers - {t}) }

    function Exclude(t: nat): Mutex { this.(writers := writers + {t}) }

    function Unexclude(t: nat): Mutex { this.(writers := writers - {t}) }

    /** A holder that excludes others is alone. */
    ghost predicate Sound() {
      forall t | t in writers :: writers == {t} && readers == {}
    }
  }
}
